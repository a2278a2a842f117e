// Strings in sorted order.

module Names {
  // Byte order on strings, strictly.
  predicate Less(a: string, b: string) {
    b != [] && (a == [] || a[0] < b[0] || (a[0] == b[0] && Less(a[1..], b[1..])))
  }

  lemma {:induction false} LessTotal(a: string, b: string)
    ensures Less(a, b) || a == b || Less(b, a)
  {
    if a != [] && b != [] && a[0] == b[0] {
      LessTotal(a[1..], b[1..]);
      assert a == [a[0]] + a[1..] && b == [b[0]] + b[1..];
    }
  }

  lemma {:induction false} LessTransitive(a: string, b: string, c: string)
    requires Less(a, b) && Less(b, c)
    ensures Less(a, c)
  {
    if a != [] && a[0] == b[0] == c[0] {
      LessTransitive(a[1..], b[1..], c[1..]);
    }
  }

  lemma {:induction false} LessIrreflexive(a: string)
    ensures !Less(a, a)
  {
    if a != [] {
      LessIrreflexive(a[1..]);
    }
  }

  // They agree up to a place where one ends, or where its character is smaller.
  ghost predicate LessFrom(a: string, b: string, k: int) {
    0 <= k <= |a| && k < |b| && a[..k] == b[..k] && (k == |a| || a[k] < b[k])
  }

  // The order is decided at the first difference.
  lemma {:induction false} LessAtFirst(a: string, b: string)
    ensures Less(a, b) <==> exists k :: LessFrom(a, b, k)
  {
    if b != [] && a == [] {
      assert LessFrom(a, b, 0);
    } else if a != [] && b != [] {
      LessAtFirst(a[1..], b[1..]);
      if a[0] < b[0] {
        assert LessFrom(a, b, 0);
      } else if a[0] == b[0] && Less(a[1..], b[1..]) {
        var k :| LessFrom(a[1..], b[1..], k);
        assert a[..k + 1] == [a[0]] + a[1..][..k] && b[..k + 1] == [b[0]] + b[1..][..k];
        assert LessFrom(a, b, k + 1);
      }
      if k :| LessFrom(a, b, k) && k > 0 {
        assert a[..k][0] == b[..k][0];
        assert a[1..][..k - 1] == a[..k][1..] && b[1..][..k - 1] == b[..k][1..];
        assert LessFrom(a[1..], b[1..], k - 1);
      }
    }
  }

  ghost predicate Ascending(names: seq<string>) {
    forall i, j :: 0 <= i < j < |names| ==> Less(names[i], names[j])
  }

  // The members of a set, each once, in ascending order.
  ghost predicate Lists(names: seq<string>, s: set<string>) {
    Ascending(names) && forall n :: n in names <==> n in s
  }

  function Inserted(names: seq<string>, n: string): (r: seq<string>)
    ensures |r| == |names| + 1
  {
    if names == [] || Less(n, names[0]) then [n] + names
    else [names[0]] + Inserted(names[1..], n)
  }

  // Put before names it precedes, or after one it follows, a list stays in order.
  lemma {:induction false} PrependedLists(n: string, names: seq<string>, s: set<string>)
    requires Lists(names, s) && (names == [] || Less(n, names[0]))
    ensures Lists([n] + names, s + {n})
  {
    var r := [n] + names;
    forall i, j | 0 <= i < j < |r| ensures Less(r[i], r[j]) {
      if i == 0 && j > 1 {
        LessTransitive(n, names[0], names[j - 1]);
      }
    }
  }

  lemma {:induction false} FirstKept(first: string, rest: seq<string>, s: set<string>)
    requires Lists(rest, s) && forall n :: n in s ==> Less(first, n)
    ensures Lists([first] + rest, s + {first})
  {
    if rest != [] {
      assert rest[0] in rest;
    }
    PrependedLists(first, rest, s);
  }

  lemma {:induction false} InsertedLists(names: seq<string>, n: string, s: set<string>)
    requires Lists(names, s) && n !in s
    ensures Lists(Inserted(names, n), s + {n})
    decreases |names|
  {
    if names == [] || Less(n, names[0]) {
      PrependedLists(n, names, s);
    } else {
      var first, rest := names[0], names[1..];
      assert first in names && names == [first] + rest;
      LessTotal(n, first);
      ListsRest(names, s);
      InsertedLists(rest, n, s - {first});
      forall m | m in s - {first} + {n} ensures Less(first, m) {
        if m != n {
          var j :| 0 <= j < |names| && names[j] == m;
        }
      }
      FirstKept(first, Inserted(rest, n), s - {first} + {n});
      assert s - {first} + {n} + {first} == s + {n};
    }
  }

  // sort.Strings, on names that are all different.
  method Sort(names: seq<string>, ghost s: set<string>) returns (sorted: seq<string>)
    requires forall n :: n in names <==> n in s
    requires forall i, j :: 0 <= i < j < |names| ==> names[i] != names[j]
    ensures Lists(sorted, s)
  {
    sorted := [];
    ghost var done: set<string> := {};
    for i := 0 to |names|
      invariant Lists(sorted, done)
      invariant forall n :: n in done <==> n in names[..i]
    {
      InsertedLists(sorted, names[i], done);
      sorted := Inserted(sorted, names[i]);
      done := done + {names[i]};
    }
    assert names[..|names|] == names;
    assert done == s;
  }

  // A set has one listing: sorting does not depend on where it started.
  lemma {:induction false} ListsUnique(a: seq<string>, b: seq<string>, s: set<string>)
    requires Lists(a, s) && Lists(b, s)
    ensures a == b
    decreases |a|
  {
    assert b != [] ==> b[0] in b && b[0] in a;
    if a != [] {
      assert a[0] in a && a[0] in b && b[0] in b && b[0] in a;
      SameFirst(a, b);
      ListsRest(a, s);
      ListsRest(b, s);
      ListsUnique(a[1..], b[1..], s - {a[0]});
    }
  }

  lemma {:induction false} SameFirst(a: seq<string>, b: seq<string>)
    requires Ascending(a) && Ascending(b) && a != [] && b != [] && a[0] in b && b[0] in a
    ensures a[0] == b[0]
  {
    var i :| 0 <= i < |a| && a[i] == b[0];
    var j :| 0 <= j < |b| && b[j] == a[0];
    if i > 0 && j > 0 {
      LessTransitive(a[0], a[i], a[0]);
      LessIrreflexive(a[0]);
    }
  }

  lemma {:induction false} ListsRest(a: seq<string>, s: set<string>)
    requires Lists(a, s) && a != []
    ensures Lists(a[1..], s - {a[0]})
  {
    LessIrreflexive(a[0]);
    assert a == [a[0]] + a[1..];
    assert forall j :: 0 <= j < |a[1..]| ==> a[1..][j] == a[j + 1];
  }

  ghost function Listing(s: set<string>): (names: seq<string>)
    ensures Lists(names, s)
  {
    if s == {} then []
    else
      var n :| n in s;
      InsertedLists(Listing(s - {n}), n, s - {n});
      assert s - {n} + {n} == s;
      Inserted(Listing(s - {n}), n)
  }
}
