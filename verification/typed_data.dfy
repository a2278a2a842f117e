// EIP-712 type strings: which struct types a type reaches, and "Definition of
// encodeType". From typeddata.go.

module TypedData {
  import opened Wrappers
  import opened Names

  datatype Field = Field(name: string, kind: string)

  type Types = map<string, seq<Field>>

  // The last '[' of a type, where it has one.
  function LastOpen(s: string): (at: Option<nat>)
    ensures at.Some? ==> at.value < |s| && s[at.value] == '[' && forall i :: at.value < i < |s| ==> s[i] != '['
    ensures at.None? ==> '[' !in s
  {
    if s == [] then None
    else if s[|s| - 1] == '[' then Some(|s| - 1)
    else LastOpen(s[..|s| - 1])
  }

  // A type with one array suffix split off, if it has one.
  function ArrayElement(kind: string): (element: Option<string>)
    ensures element.Some? ==> |element.value| < |kind| && element.value < kind
  {
    if kind == [] || kind[|kind| - 1] != ']' || LastOpen(kind).None? then None
    else Some(kind[..LastOpen(kind).value])
  }

  lemma {:induction false} LastOpenIs(s: string, at: nat)
    requires at < |s| && s[at] == '[' && forall i :: at < i < |s| ==> s[i] != '['
    ensures LastOpen(s) == Some(at)
    decreases |s|
  {
    if at < |s| - 1 {
      LastOpenIs(s[..|s| - 1], at);
    }
  }

  // A type followed by brackets, with anything but another opening one between
  // them, is an array of that type, of fixed length or not; and nothing that
  // does not end in a bracket, or opens none, is an array.
  lemma {:induction false} ArraySplits(element: string, length: string, kind: string)
    requires '[' !in length
    ensures ArrayElement(element + "[" + length + "]") == Some(element)
    ensures ArrayElement(kind).None? <==> kind == "" || kind[|kind| - 1] != ']' || '[' !in kind
  {
    var whole := element + "[" + length + "]";
    assert forall i :: |element| < i < |whole| - 1 ==> whole[i] == length[i - |element| - 1];
    assert forall i :: |element| < i < |whole| - 1 ==> whole[i] in length;
    LastOpenIs(whole, |element|);
    assert whole[..|element|] == element;
  }

  // The type an array is of, however deeply it nests.
  function ElementType(kind: string): (base: string)
    ensures ArrayElement(base).None?
    decreases |kind|
  {
    if ArrayElement(kind).Some? then ElementType(ArrayElement(kind).value) else kind
  }

  // Stripping every suffix strips this one, and leaves what is no array alone.
  lemma {:induction false} ElementStripped(element: string, length: string, kind: string)
    requires '[' !in length
    ensures ElementType(element + "[" + length + "]") == ElementType(element)
    ensures ArrayElement(kind).None? ==> ElementType(kind) == kind
  {
    ArraySplits(element, length, kind);
  }

  method StripArrays(kind: string) returns (base: string)
    ensures base == ElementType(kind)
  {
    base := kind;
    while true
      invariant ElementType(base) == ElementType(kind)
      decreases |base|
    {
      var element := ArrayElement(base);
      if element.None? {
        return;
      }
      base := element.value;
    }
  }

  // A field of `a` is, or is an array of, the struct `b`.
  predicate Refers(types: Types, a: string, b: string) {
    a in types && b in types && exists i :: 0 <= i < |types[a]| && ElementType(types[a][i].kind) == b
  }

  ghost predicate Trail(types: Types, trail: seq<string>, from: string, to: string) {
    && trail != [] && trail[0] == from && trail[|trail| - 1] == to && from in types
    && forall i :: 0 <= i < |trail| - 1 ==> Refers(types, trail[i], trail[i + 1])
  }

  // `to` is among the struct types `from` is made of, itself included.
  ghost predicate Reaches(types: Types, from: string, to: string) {
    exists trail :: Trail(types, trail, from, to)
  }

  lemma {:induction false} ReachesSelf(types: Types, name: string)
    requires name in types
    ensures Reaches(types, name, name)
  {
    assert Trail(types, [name], name, name);
  }

  lemma {:induction false} ReachesThrough(types: Types, a: string, b: string, c: string)
    requires Refers(types, a, b) && Reaches(types, b, c)
    ensures Reaches(types, a, c)
  {
    var trail :| Trail(types, trail, b, c);
    var longer := [a] + trail;
    forall i | 0 <= i < |longer| - 1 ensures Refers(types, longer[i], longer[i + 1]) {
      if i > 0 {
        assert Refers(types, trail[i - 1], trail[i]);
      }
    }
    assert Trail(types, longer, a, c);
  }

  // A set closed under reference keeps whatever a trail leads to.
  lemma {:induction false} TrailStays(types: Types, closed: set<string>, trail: seq<string>, from: string, to: string)
    requires Trail(types, trail, from, to) && from in closed
    requires forall a, b :: a in closed && Refers(types, a, b) ==> b in closed
    ensures to in closed
    decreases |trail|
  {
    if |trail| > 1 {
      assert Refers(types, trail[0], trail[1]);
      var rest := trail[1..];
      forall i | 0 <= i < |rest| - 1 ensures Refers(types, rest[i], rest[i + 1]) {
        assert Refers(types, trail[i + 1], trail[i + 2]);
      }
      TrailStays(types, closed, rest, trail[1], to);
    }
  }

  ghost function Reached(types: Types, root: string): set<string> {
    set n | n in types && Reaches(types, root, n)
  }

  // The set of names a walk shares with the walks it starts.
  class NameSet {
    var names: set<string>

    constructor ()
      ensures names == {}
    {
      names := {};
    }
  }

  // What a walk from `name` added: only types it reaches, and none whose
  // references were left out.
  ghost predicate Walked(types: Types, name: string, before: set<string>, after: set<string>) {
    && before <= after <= types.Keys
    && (forall x :: x in after - before ==> Reaches(types, name, x))
    && (forall x, y :: x in after - before && Refers(types, x, y) ==> y in after)
  }

  method CollectTypes(types: Types, name: string, found: NameSet) returns (ok: bool)
    requires found.names <= types.Keys
    modifies found
    ensures ok <==> name in types
    ensures Walked(types, name, old(found.names), found.names)
    ensures ok ==> name in found.names
    decreases |types.Keys - found.names|
  {
    if name in found.names {
      return true;
    }
    if name !in types {
      return false;
    }
    ghost var before := found.names;
    found.names := found.names + {name};
    ReachesSelf(types, name);
    var fields := types[name];
    for i := 0 to |fields|
      invariant before + {name} <= found.names <= types.Keys
      invariant forall x :: x in found.names - before ==> Reaches(types, name, x)
      invariant forall x, y :: x in found.names - before && x != name && Refers(types, x, y) ==> y in found.names
      invariant forall k :: 0 <= k < i && ElementType(fields[k].kind) in types ==> ElementType(fields[k].kind) in found.names
    {
      var base := StripArrays(fields[i].kind);
      if base in types {
        ghost var mid := found.names;
        SmallerLeft(types.Keys, before, mid, name);
        var walked := CollectTypes(types, base, found);
        assert Refers(types, name, base);
        forall x | x in found.names - mid ensures Reaches(types, name, x) {
          ReachesThrough(types, name, base, x);
        }
      }
    }
    return true;
  }

  lemma {:induction false} SmallerLeft(all: set<string>, before: set<string>, mid: set<string>, name: string)
    requires before + {name} <= mid && name in all && name !in before
    ensures |all - mid| < |all - before|
  {
    assert all - mid <= (all - before) - {name};
    assert (all - before) - {name} == (all - mid) + ((all - before) - {name} - (all - mid));
  }

  // From an empty set, a walk collects exactly what its root reaches.
  lemma {:induction false} WalkedReached(types: Types, root: string, after: set<string>)
    requires Walked(types, root, {}, after) && root in after
    ensures after == Reached(types, root)
  {
    forall n | n in Reached(types, root) ensures n in after {
      var trail :| Trail(types, trail, root, n);
      TrailStays(types, after, trail, root, n);
    }
  }

  // "Name(type field,type field)"
  function FieldList(fields: seq<Field>): string {
    if fields == [] then ""
    else if |fields| == 1 then fields[0].kind + " " + fields[0].name
    else FieldList(fields[..|fields| - 1]) + "," + fields[|fields| - 1].kind + " " + fields[|fields| - 1].name
  }

  function Segment(types: Types, name: string): string
    requires name in types
  {
    name + "(" + FieldList(types[name]) + ")"
  }

  function Segments(types: Types, names: seq<string>): string
    requires forall n :: n in names ==> n in types
  {
    if names == [] then ""
    else
      var last := |names| - 1;
      assert forall n :: n in names[..last] ==> n in names;
      assert names[last] in names;
      Segments(types, names[..last]) + Segment(types, names[last])
  }

  // The root's segment, then those of all it reaches, in ascending order.
  ghost predicate IsTypeString(types: Types, root: string, text: string) {
    && root in types
    && exists names :: Lists(names, Reached(types, root) - {root})
         && (forall n :: n in names ==> n in types)
         && text == Segment(types, root) + Segments(types, names)
  }

  // There is one such text, whatever order anything was visited in.
  lemma {:induction false} TypeStringUnique(types: Types, root: string, a: string, b: string)
    requires IsTypeString(types, root, a) && IsTypeString(types, root, b)
    ensures a == b
  {
    var s := Reached(types, root) - {root};
    var x :| Lists(x, s) && (forall n :: n in x ==> n in types) && a == Segment(types, root) + Segments(types, x);
    var y :| Lists(y, s) && (forall n :: n in y ==> n in types) && b == Segment(types, root) + Segments(types, y);
    ListsUnique(x, y, s);
  }

  ghost function TypeString(types: Types, root: string): (text: string)
    requires root in types
    ensures IsTypeString(types, root, text)
  {
    var names := Listing(Reached(types, root) - {root});
    assert forall n :: n in names ==> n in types;
    Segment(types, root) + Segments(types, names)
  }

  method TypeSegment(types: Types, name: string) returns (s: Result<string>)
    ensures s.Ok? <==> name in types
    ensures s.Ok? ==> s.value == Segment(types, name)
  {
    if name !in types {
      return Err("typed data has no such type");
    }
    var fields, text := types[name], name + "(";
    for i := 0 to |fields|
      invariant text == name + "(" + FieldList(fields[..i])
    {
      assert fields[..i + 1][..i] == fields[..i];
      if i > 0 {
        text := text + ",";
      }
      text := text + (fields[i].kind + " " + fields[i].name);
    }
    assert fields[..|fields|] == fields;
    s := Ok(text + ")");
  }

  // The keys of a set in no particular order, as ranging over a map gives them.
  method Keys(s: set<string>) returns (names: seq<string>)
    ensures forall n :: n in names <==> n in s
    ensures forall i, j :: 0 <= i < j < |names| ==> names[i] != names[j]
  {
    names := [];
    var left := s;
    while left != {}
      invariant left <= s
      invariant forall n :: n in names <==> n in s - left
      invariant forall i, j :: 0 <= i < j < |names| ==> names[i] != names[j]
      decreases left
    {
      var n :| n in left;
      assert n !in names;
      names := names + [n];
      left := left - {n};
    }
  }

  // The segments of these types, one after another.
  method AppendSegments(types: Types, start: string, names: seq<string>) returns (s: string)
    requires forall n :: n in names ==> n in types
    ensures s == start + Segments(types, names)
  {
    s := start;
    for i := 0 to |names|
      invariant forall n :: n in names[..i] ==> n in types
      invariant s == start + Segments(types, names[..i])
    {
      assert names[i] in names;
      var segment := TypeSegment(types, names[i]);
      assert names[..i + 1][..i] == names[..i];
      s := s + segment.value;
    }
    assert names[..|names|] == names;
  }

  method EncodeType(types: Types, name: string) returns (text: Result<string>)
    ensures text.Ok? <==> name in types
    ensures text.Ok? ==> text.value == TypeString(types, name)
  {
    var referenced := new NameSet();
    var ok := CollectTypes(types, name, referenced);
    if !ok {
      return Err("typed data has no such type");
    }
    WalkedReached(types, name, referenced.names);
    var others := referenced.names - {name};
    var names := Keys(others);
    var sorted := Sort(names, others);
    var root := TypeSegment(types, name);
    assert forall n :: n in sorted ==> n in types;
    var s := AppendSegments(types, root.value, sorted);
    assert IsTypeString(types, name, s);
    TypeStringUnique(types, name, s, TypeString(types, name));
    text := Ok(s);
  }
}
