// The EIP-712 domain and digest: internal/eip712 and TypedData.Digest.

module Digests {
  import opened Bytes
  import opened Wrappers
  import opened Abi
  import opened TypedData
  import opened StructHash

  // The domain a signature is bound to; an absent field is left out entirely.
  datatype Contract = Absent | Malformed | At(address: Address)
  datatype Domain = Domain(name: string, version: string, chainID: Option<int>, contract: Contract)

  function Join(parts: seq<string>): string {
    if parts == [] then "" else if |parts| == 1 then parts[0] else parts[0] + "," + Join(parts[1..])
  }

  function DomainNames(d: Domain): seq<string> {
    (if d.name != "" then ["string name"] else []) + (if d.version != "" then ["string version"] else [])
    + (if d.chainID.Some? then ["uint256 chainId"] else [])
    + (if d.contract.At? then ["address verifyingContract"] else [])
  }

  function DomainText(d: Domain): string { "EIP712Domain(" + Join(DomainNames(d)) + ")" }

  function DomainWords(h: Hasher, d: Domain): seq<Word>
    requires d.chainID.Some? ==> UintWord(d.chainID).Ok?
  {
    NameWord(h, d.name) + NameWord(h, d.version) + ChainWord(d) + ContractWord(d)
  }

  function NameWord(h: Hasher, name: string): seq<Word> { if name != "" then [h.keccak(h.utf8(name))] else [] }

  function ChainWord(d: Domain): seq<Word>
    requires d.chainID.Some? ==> UintWord(d.chainID).Ok?
  {
    if d.chainID.Some? then [UintWord(d.chainID).value] else []
  }

  function ContractWord(d: Domain): seq<Word> { if d.contract.At? then [Zeros(12) + d.contract.address] else [] }

  function SeparatorInput(h: Hasher, d: Domain): bytes
    requires d.chainID.Some? ==> UintWord(d.chainID).Ok?
  {
    h.keccak(h.utf8(DomainText(d))) + Flat(DomainWords(h, d))
  }

  function Separator(h: Hasher, d: Domain): Result<Word> {
    if d.chainID.Some? && UintWord(d.chainID).Err? then Err("bad chain id")
    else if d.contract.Malformed? then Err("bad address")
    else Ok(h.keccak(SeparatorInput(h, d)))
  }

  // The first pair, in order, that collides.
  ghost function FirstClash(h: Hasher, pairs: seq<Pair>): (c: Option<Pair>)
    ensures c.Some? ==> Collides(h, c.value)
    ensures c.None? ==> forall i :: 0 <= i < |pairs| ==> !Collides(h, pairs[i])
  {
    if pairs == [] then None
    else if Collides(h, pairs[0]) then Some(pairs[0])
    else FirstClash(h, pairs[1..])
  }

  ghost function DomainClash(h: Hasher, a: Domain, b: Domain): (c: Option<Pair>)
    requires Separator(h, a).Ok? && Separator(h, b).Ok?
    ensures c.Some? ==> Collides(h, c.value)
  {
    FirstClash(h, DomainPairs(h, a, b))
  }

  // What was hashed for two domains, side by side.
  ghost function DomainPairs(h: Hasher, a: Domain, b: Domain): seq<Pair>
    requires Separator(h, a).Ok? && Separator(h, b).Ok?
  {
    [Pair(SeparatorInput(h, a), SeparatorInput(h, b)),
     Pair(h.utf8(DomainText(a)), h.utf8(DomainText(b))),
     Pair(h.utf8(a.name), h.utf8(b.name)),
     Pair(h.utf8(a.version), h.utf8(b.version))]
  }

  ghost predicate SameShape(a: Domain, b: Domain) {
    (a.name == "" <==> b.name == "") && (a.version == "" <==> b.version == "")
    && a.chainID.Some? == b.chainID.Some? && a.contract.At? == b.contract.At?
  }

  // The length alone says which fields a domain type lists.
  function ListedLength(d: Domain): nat {
    (if d.name != "" then 12 else 0) + (if d.version != "" then 15 else 0)
    + (if d.chainID.Some? then 16 else 0) + (if d.contract.At? then 26 else 0)
  }

  function JoinedLength(parts: seq<string>): nat {
    if parts == [] then 0 else |parts[0]| + 1 + JoinedLength(parts[1..])
  }

  lemma {:induction false} JoinLength(parts: seq<string>)
    ensures parts != [] ==> |Join(parts)| == JoinedLength(parts) - 1
  {
    if |parts| > 1 {
      JoinLength(parts[1..]);
    }
  }

  lemma {:induction false} JoinedAdds(a: seq<string>, b: seq<string>)
    ensures JoinedLength(a + b) == JoinedLength(a) + JoinedLength(b)
  {
    if a == [] {
      assert a + b == b;
    } else {
      assert (a + b)[1..] == a[1..] + b;
      JoinedAdds(a[1..], b);
    }
  }

  lemma {:induction false} JoinedOne(listed: bool, part: string)
    ensures JoinedLength(if listed then [part] else []) == if listed then |part| + 1 else 0
  {
    assert [part][1..] == [];
  }

  lemma {:induction false} ListedLengthHolds(d: Domain)
    ensures JoinedLength(DomainNames(d)) == ListedLength(d)
  {
    var n := if d.name != "" then ["string name"] else [];
    var v := if d.version != "" then ["string version"] else [];
    var i := if d.chainID.Some? then ["uint256 chainId"] else [];
    var c := if d.contract.At? then ["address verifyingContract"] else [];
    JoinedAdds(n + v + i, c);
    JoinedAdds(n + v, i);
    JoinedAdds(n, v);
    JoinedOne(d.name != "", "string name");
    JoinedOne(d.version != "", "string version");
    JoinedOne(d.chainID.Some?, "uint256 chainId");
    JoinedOne(d.contract.At?, "address verifyingContract");
  }

  lemma {:induction false} NothingListed(d: Domain)
    ensures DomainNames(d) == [] <==> ListedLength(d) == 0
  {
  }

  lemma {:induction false} TextShape(a: Domain, b: Domain)
    requires DomainText(a) == DomainText(b)
    ensures SameShape(a, b)
  {
    ListedLengthHolds(a);
    ListedLengthHolds(b);
    NothingListed(a);
    NothingListed(b);
    JoinLength(DomainNames(a));
    JoinLength(DomainNames(b));
    assert |Join(DomainNames(a))| == |Join(DomainNames(b))|;
  }

  lemma {:induction false} Peel(x: seq<Word>, xs: seq<Word>, y: seq<Word>, ys: seq<Word>)
    requires |x| == |y| && x + xs == y + ys
    ensures x == y && xs == ys
  {
    assert x == (x + xs)[..|x|] && y == (y + ys)[..|y|];
    assert xs == (x + xs)[|x|..] && ys == (y + ys)[|y|..];
  }

  // Field by field, the words of domains of one shape.
  lemma {:induction false} WordsPeeled(h: Hasher, a: Domain, b: Domain)
    requires Separator(h, a).Ok? && Separator(h, b).Ok?
    requires SameShape(a, b) && DomainWords(h, a) == DomainWords(h, b)
    ensures NameWord(h, a.name) == NameWord(h, b.name) && NameWord(h, a.version) == NameWord(h, b.version)
    ensures ChainWord(a) == ChainWord(b) && ContractWord(a) == ContractWord(b)
  {
    var n, n' := NameWord(h, a.name), NameWord(h, b.name);
    var v, v' := NameWord(h, a.version), NameWord(h, b.version);
    var i, i' := ChainWord(a), ChainWord(b);
    Peel(n + v + i, ContractWord(a), n' + v' + i', ContractWord(b));
    Peel(n + v, i, n' + v', i');
    Peel(n, v, n', v');
  }

  lemma {:induction false} WordsShape(h: Hasher, a: Domain, b: Domain)
    requires Separator(h, a).Ok? && Separator(h, b).Ok?
    requires SameShape(a, b) && DomainWords(h, a) == DomainWords(h, b)
    ensures a.name != "" ==> h.keccak(h.utf8(a.name)) == h.keccak(h.utf8(b.name))
    ensures a.version != "" ==> h.keccak(h.utf8(a.version)) == h.keccak(h.utf8(b.version))
    ensures a.chainID == b.chainID && a.contract == b.contract
  {
    WordsPeeled(h, a, b);
    if a.chainID.Some? {
      assert ChainWord(a)[0] == ChainWord(b)[0];
      UintWordFits(a.chainID);
      UintWordFits(b.chainID);
    }
    if a.contract.At? {
      assert ContractWord(a)[0] == ContractWord(b)[0];
      AddressWord(a.contract.address, b.contract.address);
    }
    assert a.name != "" ==> NameWord(h, a.name)[0] == NameWord(h, b.name)[0];
    assert a.version != "" ==> NameWord(h, a.version)[0] == NameWord(h, b.version)[0];
  }

  // Separators bind their domains: equal ones come from equal domains, or from
  // a collision between what was hashed for the two.
  lemma {:induction false} SeparatorBinds(h: Hasher, a: Domain, b: Domain)
    requires forall x, y :: h.utf8(x) == h.utf8(y) ==> x == y
    requires Separator(h, a).Ok? && Separator(h, a) == Separator(h, b)
    ensures Settled(h, a == b, DomainClash(h, a, b))
  {
    var pa, pb := SeparatorInput(h, a), SeparatorInput(h, b);
    var pairs := DomainPairs(h, a, b);
    if DomainClash(h, a, b).None? {
      assert !Collides(h, pairs[0]) && !Collides(h, pairs[1]) && !Collides(h, pairs[2]) && !Collides(h, pairs[3]);
      assert pa == pb;
      assert h.keccak(h.utf8(DomainText(a))) == pa[..32] && h.keccak(h.utf8(DomainText(b))) == pb[..32];
      TextShape(a, b);
      assert Flat(DomainWords(h, a)) == pa[32..] && Flat(DomainWords(h, b)) == pb[32..];
      FlatInjective(DomainWords(h, a), DomainWords(h, b));
      WordsShape(h, a, b);
    }
  }

  // What two struct hashes were made from, side by side.
  ghost function TypePairs(h: Hasher, ta: Types, x: string, a: Any, tb: Types, y: string, b: Any): seq<Pair>
    requires a.Message? && b.Message? && HashStruct(h, ta, x, a).Ok? && HashStruct(h, tb, y, b).Ok?
  {
    [Pair(TypeHash(h, ta, x) + Flat(EncodeFields(h, ta, ta[x], a).value),
          TypeHash(h, tb, y) + Flat(EncodeFields(h, tb, tb[y], b).value)),
     Pair(h.utf8(TypeString(ta, x)), h.utf8(TypeString(tb, y)))]
  }

  // A struct hash binds its type as well: across any two type maps, equal
  // hashes come from equal type strings and equal words, or from a collision.
  lemma {:induction false} TypeStringBinds(h: Hasher, ta: Types, x: string, a: Any, tb: Types, y: string, b: Any)
    requires forall s, t :: h.utf8(s) == h.utf8(t) ==> s == t
    requires a.Message? && b.Message? && HashStruct(h, ta, x, a).Ok? && HashStruct(h, ta, x, a) == HashStruct(h, tb, y, b)
    ensures Settled(h, TypeString(ta, x) == TypeString(tb, y)
                       && EncodeFields(h, ta, ta[x], a) == EncodeFields(h, tb, tb[y], b),
                    FirstClash(h, TypePairs(h, ta, x, a, tb, y, b)))
  {
    var pairs := TypePairs(h, ta, x, a, tb, y, b);
    var wa, wb := EncodeFields(h, ta, ta[x], a).value, EncodeFields(h, tb, tb[y], b).value;
    if FirstClash(h, pairs).None? {
      assert !Collides(h, pairs[0]) && !Collides(h, pairs[1]);
      assert TypeHash(h, ta, x) == pairs[0].x[..32] && TypeHash(h, tb, y) == pairs[0].y[..32];
      assert Flat(wa) == pairs[0].x[32..] && Flat(wb) == pairs[0].y[32..];
      FlatInjective(wa, wb);
    }
  }

  // The 32 bytes a signature covers.
  function Digest(h: Hasher, separator: Word, hash: Word): Word {
    h.keccak(DigestInput(separator, hash))
  }

  function DigestInput(separator: Word, hash: Word): bytes { [0x19, 0x01] + separator + hash }

  ghost function MessageDigest(h: Hasher, types: Types, primary: string, d: Domain, m: Any): Result<Word>
    requires m.Message?
  {
    var separator :- Separator(h, d);
    var hash :- HashStruct(h, types, primary, m);
    Ok(Digest(h, separator, hash))
  }

  // Where two signed payloads with one digest were hashed from different bytes.
  ghost function DigestClash(h: Hasher, types: Types, primary: string, da: Domain, a: Any, db: Domain, b: Any): Option<Pair>
    requires a.Message? && b.Message?
    requires MessageDigest(h, types, primary, da, a).Ok? && MessageDigest(h, types, primary, db, b).Ok?
  {
    var x := DigestInput(Separator(h, da).value, HashStruct(h, types, primary, a).value);
    var y := DigestInput(Separator(h, db).value, HashStruct(h, types, primary, b).value);
    if x != y then Some(Pair(x, y))
    else if DomainClash(h, da, db).Some? then DomainClash(h, da, db)
    else ClashStruct(h, types, primary, a, b)
  }

  // What a wallet signs is bound whole: one digest means one domain and one
  // message, in every nested field, or a collision that can be shown.
  lemma {:induction false} DigestBinds(h: Hasher, types: Types, primary: string, da: Domain, a: Any, db: Domain, b: Any)
    requires forall x, y :: h.utf8(x) == h.utf8(y) ==> x == y
    requires a.Message? && b.Message? && MessageDigest(h, types, primary, da, a).Ok?
    requires MessageDigest(h, types, primary, da, a) == MessageDigest(h, types, primary, db, b)
    ensures Settled(h, da == db && SameFields(types, types[primary], a, b), DigestClash(h, types, primary, da, a, db, b))
  {
    var sa, sb := Separator(h, da).value, Separator(h, db).value;
    var ha, hb := HashStruct(h, types, primary, a).value, HashStruct(h, types, primary, b).value;
    var x, y := DigestInput(sa, ha), DigestInput(sb, hb);
    if x == y {
      assert sa == x[2..34] && sb == y[2..34] && ha == x[34..] && hb == y[34..];
      SeparatorBinds(h, da, db);
      HashStructBinds(h, types, primary, a, b);
    }
  }
}
