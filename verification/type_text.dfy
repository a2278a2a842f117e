// An EIP-712 type string says which struct definitions it was made from: read
// back, it gives one root and one definition for every struct the root reaches.

module TypeText {
  import opened TypedData
  import opened Names

  // A name or a type without the marks a type string is punctuated with.
  predicate Plain(s: string) { '(' !in s && ')' !in s && ',' !in s && ' ' !in s }

  predicate PlainFields(fields: seq<Field>) {
    forall i :: 0 <= i < |fields| ==> Plain(fields[i].name) && Plain(fields[i].kind)
  }

  predicate PlainStruct(types: Types, name: string) {
    name in types && Plain(name) && PlainFields(types[name])
  }

  // So are the root and every struct it reaches.
  ghost predicate PlainTypes(types: Types, root: string) {
    forall n :: n in Reached(types, root) ==> PlainStruct(types, n)
  }

  // Two texts cut at the first of a mark that neither front holds.
  lemma {:induction false} CutFirst(a: string, b: string, mark: char, x: string, y: string)
    requires mark !in a && mark !in b && a + [mark] + x == b + [mark] + y
    ensures a == b && x == y
  {
    var s, t := a + [mark] + x, b + [mark] + y;
    assert s[|a|] == mark && t[|b|] == mark;
    assert forall i :: 0 <= i < |a| ==> s[i] == a[i] && a[i] in a;
    assert forall i :: 0 <= i < |b| ==> t[i] == b[i] && b[i] in b;
    assert a == s[..|a|] && b == t[..|b|];
    assert x == s[|a| + 1..] && y == t[|b| + 1..];
  }

  // Past the last of a mark there is none.
  lemma {:induction false} LastMark(x: string, mark: char, a: string, at: nat)
    requires mark !in a && at < |x + [mark] + a| && (x + [mark] + a)[at] == mark
    ensures at <= |x|
  {
    var s := x + [mark] + a;
    assert forall i :: |x| < i < |s| ==> s[i] == a[i - |x| - 1];
    assert forall i :: |x| < i < |s| ==> s[i] in a;
  }

  // Two texts cut at the last of a mark that neither back holds.
  lemma {:induction false} CutLast(x: string, y: string, mark: char, a: string, b: string)
    requires mark !in a && mark !in b && x + [mark] + a == y + [mark] + b
    ensures x == y && a == b
  {
    var s, t := x + [mark] + a, y + [mark] + b;
    LastMark(x, mark, a, |y|);
    LastMark(y, mark, b, |x|);
    assert x == s[..|x|] && y == t[..|y|];
    assert a == s[|x| + 1..] && b == t[|y| + 1..];
  }

  function FieldText(f: Field): string { f.kind + " " + f.name }

  lemma {:induction false} FieldListText(fields: seq<Field>)
    requires fields != []
    ensures var last := |fields| - 1;
      FieldList(fields) == if last == 0 then FieldText(fields[0]) else FieldList(fields[..last]) + [','] + FieldText(fields[last])
  {
  }

  // Which marks a field list holds.
  lemma {:induction false} FieldListMarks(fields: seq<Field>)
    requires PlainFields(fields)
    ensures '(' !in FieldList(fields) && ')' !in FieldList(fields)
    ensures ',' in FieldList(fields) <==> |fields| > 1
    ensures ' ' in FieldList(fields) <==> fields != []
    decreases |fields|
  {
    if fields != [] {
      var init := fields[..|fields| - 1];
      FieldListMarks(init);
      FieldListText(fields);
      assert ' ' in FieldText(fields[|fields| - 1]);
    }
  }

  lemma {:induction false} FieldTextUnique(f: Field, g: Field)
    requires Plain(f.kind) && Plain(g.kind) && FieldText(f) == FieldText(g)
    ensures f == g
  {
    CutFirst(f.kind, g.kind, ' ', f.name, g.name);
  }

  lemma {:induction false} FieldListUnique(f: seq<Field>, g: seq<Field>)
    requires PlainFields(f) && PlainFields(g) && FieldList(f) == FieldList(g)
    ensures f == g
    decreases |f|
  {
    FieldListMarks(f);
    FieldListMarks(g);
    if f != [] {
      var m, n := |f| - 1, |g| - 1;
      FieldListText(f);
      FieldListText(g);
      if m == 0 {
        FieldTextUnique(f[0], g[0]);
      } else {
        CutLast(FieldList(f[..m]), FieldList(g[..n]), ',', FieldText(f[m]), FieldText(g[n]));
        FieldTextUnique(f[m], g[n]);
        FieldListUnique(f[..m], g[..n]);
        assert f == f[..m] + [f[m]] && g == g[..n] + [g[n]];
      }
    }
  }

  // A struct's definition ends where it says it does.
  lemma {:induction false} SegmentUnique(ta: Types, n: string, x: string, tb: Types, m: string, y: string)
    requires PlainStruct(ta, n) && PlainStruct(tb, m) && Segment(ta, n) + x == Segment(tb, m) + y
    ensures n == m && ta[n] == tb[m] && x == y
  {
    var f, g := FieldList(ta[n]), FieldList(tb[m]);
    FieldListMarks(ta[n]);
    FieldListMarks(tb[m]);
    assert n + ['('] + (f + [')'] + x) == Segment(ta, n) + x;
    assert m + ['('] + (g + [')'] + y) == Segment(tb, m) + y;
    CutFirst(n, m, '(', f + [')'] + x, g + [')'] + y);
    CutFirst(f, g, ')', x, y);
    FieldListUnique(ta[n], tb[m]);
  }

  ghost predicate Known(types: Types, names: seq<string>) { forall n :: n in names ==> n in types }

  lemma {:induction false} SegmentsLast(types: Types, names: seq<string>, last: string)
    requires Known(types, names) && last in types
    ensures Known(types, names + [last])
    ensures Segments(types, names + [last]) == Segments(types, names) + Segment(types, last)
  {
    assert (names + [last])[..|names|] == names;
  }

  lemma {:induction false} Joined(x: string, y: string, z: string)
    ensures x + y + z == x + (y + z)
  {
  }

  lemma {:induction false} SegmentsFront(types: Types, first: string, rest: seq<string>)
    requires first in types && Known(types, rest)
    ensures Known(types, [first] + rest)
    ensures Segments(types, [first] + rest) == Segment(types, first) + Segments(types, rest)
    decreases |rest|
  {
    if rest == [] {
      assert [first] + [] == [] + [first];
      SegmentsLast(types, [], first);
    } else {
      var init, last := rest[..|rest| - 1], rest[|rest| - 1];
      assert rest == init + [last] && [first] + rest == ([first] + init) + [last];
      SegmentsFront(types, first, init);
      SegmentsLast(types, init, last);
      SegmentsLast(types, [first] + init, last);
      Joined(Segment(types, first), Segments(types, init), Segment(types, last));
    }
  }

  lemma {:induction false} SegmentsUnique(ta: Types, ns: seq<string>, tb: Types, ms: seq<string>)
    requires Known(ta, ns) && Known(tb, ms)
    requires (forall n :: n in ns ==> PlainStruct(ta, n)) && (forall m :: m in ms ==> PlainStruct(tb, m))
    requires Segments(ta, ns) == Segments(tb, ms)
    ensures ns == ms && forall n :: n in ns ==> ta[n] == tb[n]
    decreases |ns|
  {
    if ns == [] || ms == [] {
      NoSegments(ta, ns);
      NoSegments(tb, ms);
    } else {
      assert ns == [ns[0]] + ns[1..] && ms == [ms[0]] + ms[1..];
      SegmentsFront(ta, ns[0], ns[1..]);
      SegmentsFront(tb, ms[0], ms[1..]);
      SegmentUnique(ta, ns[0], Segments(ta, ns[1..]), tb, ms[0], Segments(tb, ms[1..]));
      SegmentsUnique(ta, ns[1..], tb, ms[1..]);
    }
  }

  lemma {:induction false} NoSegments(types: Types, names: seq<string>)
    requires Known(types, names)
    ensures Segments(types, names) == "" <==> names == []
  {
    if names != [] {
      var last := |names| - 1;
      assert names == names[..last] + [names[last]];
      SegmentsLast(types, names[..last], names[last]);
    }
  }

  // The same root, reaching the same structs, each defined the same.
  ghost predicate SameStructs(ta: Types, tb: Types, root: string) {
    && root in ta && root in tb
    && Reached(ta, root) == Reached(tb, root)
    && forall n :: n in Reached(ta, root) ==> ta[n] == tb[n]
  }

  lemma {:induction false} SameMembers(names: seq<string>, s: set<string>, t: set<string>, n: string)
    requires Lists(names, s - {n}) && Lists(names, t - {n}) && n in s && n in t
    ensures s == t
  {
    assert forall m :: m in s - {n} <==> m in t - {n};
    assert s == s - {n} + {n} && t == t - {n} + {n};
    assert s - {n} == t - {n};
  }

  lemma {:induction false} PlainReads(ta: Types, x: string, tb: Types, y: string)
    requires x in ta && y in tb && PlainTypes(ta, x) && PlainTypes(tb, y)
    requires TypeString(ta, x) == TypeString(tb, y)
    ensures x == y && SameStructs(ta, tb, x)
  {
    ReachesSelf(ta, x);
    ReachesSelf(tb, y);
    var ns :| Lists(ns, Reached(ta, x) - {x}) && Known(ta, ns) && TypeString(ta, x) == Segment(ta, x) + Segments(ta, ns);
    var ms :| Lists(ms, Reached(tb, y) - {y}) && Known(tb, ms) && TypeString(tb, y) == Segment(tb, y) + Segments(tb, ms);
    SegmentUnique(ta, x, Segments(ta, ns), tb, y, Segments(tb, ms));
    SegmentsUnique(ta, ns, tb, ms);
    SameMembers(ns, Reached(ta, x), Reached(tb, y), x);
    forall n | n in Reached(ta, x) ensures ta[n] == tb[n] {
      assert n == x || n in ns;
    }
  }

  // A type string whose own names are plain is read back right by exactly those
  // whose names are plain too: equal strings come from the same definitions if
  // and only if the other's names are.
  lemma {:induction false} TypeStringReads(ta: Types, x: string, tb: Types, y: string)
    requires x in ta && y in tb && TypeString(ta, x) == TypeString(tb, y)
    ensures PlainTypes(tb, y) ==> (PlainTypes(ta, x) <==> x == y && SameStructs(ta, tb, x))
  {
    if PlainTypes(tb, y) && PlainTypes(ta, x) {
      PlainReads(ta, x, tb, y);
    }
    if PlainTypes(tb, y) && x == y && SameStructs(ta, tb, x) {
      forall n | n in Reached(ta, x) ensures PlainStruct(ta, n) {
        assert n in Reached(tb, y) && PlainStruct(tb, n);
      }
    }
  }

  // What a reached struct refers to is reached.
  lemma {:induction false} ReachedOn(types: Types, root: string, a: string, b: string)
    requires a in Reached(types, root) && Refers(types, a, b)
    ensures b in Reached(types, root)
  {
    var trail :| Trail(types, trail, root, a);
    var longer := trail + [b];
    forall i | 0 <= i < |longer| - 1 ensures Refers(types, longer[i], longer[i + 1]) {
      assert i < |trail| - 1 ==> Refers(types, trail[i], trail[i + 1]);
    }
    assert Trail(types, longer, root, b);
  }

  // A trail among the same structs is a trail in the other types too.
  lemma {:induction false} TrailMoves(ta: Types, tb: Types, root: string, trail: seq<string>, from: string, to: string)
    requires SameStructs(ta, tb, root) && from in Reached(ta, root) && Trail(ta, trail, from, to)
    ensures Trail(tb, trail, from, to) && to in Reached(ta, root)
    decreases |trail|
  {
    if |trail| > 1 {
      var rest := trail[1..];
      assert Refers(ta, trail[0], trail[1]);
      ReachedOn(ta, root, from, trail[1]);
      forall i | 0 <= i < |rest| - 1 ensures Refers(ta, rest[i], rest[i + 1]) {
        assert Refers(ta, trail[i + 1], trail[i + 2]);
      }
      TrailMoves(ta, tb, root, rest, trail[1], to);
      forall i | 0 <= i < |trail| - 1 ensures Refers(tb, trail[i], trail[i + 1]) {
        assert i > 0 ==> Refers(tb, rest[i - 1], rest[i]);
      }
    }
  }

  lemma {:induction false} SameStructsTurned(ta: Types, tb: Types, root: string)
    requires SameStructs(ta, tb, root)
    ensures SameStructs(tb, ta, root)
  {
  }

  // What holds of a root holds of every struct it reaches.
  lemma {:induction false} SameStructsBelow(ta: Types, tb: Types, root: string, n: string)
    requires SameStructs(ta, tb, root) && n in Reached(ta, root)
    ensures SameStructs(ta, tb, n)
  {
    ReachedMoves(ta, tb, root, n);
    SameStructsTurned(ta, tb, root);
    ReachedMoves(tb, ta, root, n);
  }

  lemma {:induction false} ReachedMoves(ta: Types, tb: Types, root: string, n: string)
    requires SameStructs(ta, tb, root) && n in Reached(ta, root)
    ensures Reached(ta, n) <= Reached(tb, n) && Reached(ta, n) <= Reached(ta, root)
  {
    forall m | m in Reached(ta, n) ensures m in Reached(tb, n) && m in Reached(ta, root) {
      var trail :| Trail(ta, trail, n, m);
      TrailMoves(ta, tb, root, trail, n, m);
    }
  }

  lemma {:induction false} SegmentsAgree(ta: Types, tb: Types, names: seq<string>)
    requires Known(ta, names) && Known(tb, names) && forall n :: n in names ==> ta[n] == tb[n]
    ensures Segments(ta, names) == Segments(tb, names)
    decreases |names|
  {
    if names != [] {
      assert names[|names| - 1] in names;
      SegmentsAgree(ta, tb, names[..|names| - 1]);
    }
  }

  // Same definitions, same type string.
  lemma {:induction false} TypeStringAgrees(ta: Types, tb: Types, root: string)
    requires SameStructs(ta, tb, root)
    ensures TypeString(ta, root) == TypeString(tb, root)
  {
    ReachesSelf(ta, root);
    var s := Reached(ta, root) - {root};
    var text := TypeString(ta, root);
    var names :| Lists(names, s) && Known(ta, names) && text == Segment(ta, root) + Segments(ta, names);
    SegmentsAgree(ta, tb, names);
    assert IsTypeString(tb, root, text);
    TypeStringUnique(tb, root, text, TypeString(tb, root));
  }

  // A name that takes in what would end its field and start another.
  lemma {:induction false} GluedField(x: Field, rest: string)
    ensures FieldText(Field(x.name + "," + rest, x.kind)) == FieldText(x) + [','] + rest
  {
  }

  lemma {:induction false} GluedTexts(a: string, b: string, c: string)
    ensures a + [','] + b + [','] + c == a + [','] + (b + [','] + c)
  {
  }

  lemma {:induction false} TwoFields(x: Field, y: Field)
    ensures FieldList([x, y]) == FieldText(x) + [','] + FieldText(y)
  {
    FieldListText([x, y]);
    FieldListText([x]);
    assert [x, y][..1] == [x];
  }

  // Names holding a mark may be read wrong: two fields, where either name takes
  // in the end of the one and the start of the other.
  lemma {:induction false} MarksConfuse(x: Field, y: Field, z: Field)
    ensures var (f, g) := ([Field(x.name + "," + FieldText(y), x.kind), z], [x, Field(y.name + "," + FieldText(z), y.kind)]);
      FieldList(f) == FieldList(g) && f != g
  {
    assert |x.name + "," + FieldText(y)| > |x.name|;
    TwoFields(Field(x.name + "," + FieldText(y), x.kind), z);
    TwoFields(x, Field(y.name + "," + FieldText(z), y.kind));
    GluedField(x, FieldText(y));
    GluedField(y, FieldText(z));
    GluedTexts(FieldText(x), FieldText(y), FieldText(z));
  }
}
