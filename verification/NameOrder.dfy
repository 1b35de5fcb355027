/** Lexicographic order on file names, and sorted listings of a folder. */
module NameOrder {
  predicate Less(a: string, b: string) {
    if b == "" then false
    else if a == "" then true
    else a[0] < b[0] || (a[0] == b[0] && Less(a[1..], b[1..]))
  }

  lemma {:induction false} LessIrreflexive(a: string)
    ensures !Less(a, a)
  {
    if a != "" {
      LessIrreflexive(a[1..]);
    }
  }

  lemma {:induction false} LessTransitive(a: string, b: string, c: string)
    requires Less(a, b) && Less(b, c)
    ensures Less(a, c)
    decreases |a|
  {
    if a != "" && a[0] == b[0] == c[0] {
      LessTransitive(a[1..], b[1..], c[1..]);
    }
  }

  lemma {:induction false} LessTotal(a: string, b: string)
    ensures Less(a, b) || a == b || Less(b, a)
    decreases |a|
  {
    if a != "" && b != "" && a[0] == b[0] {
      LessTotal(a[1..], b[1..]);
      assert a == [a[0]] + a[1..] && b == [b[0]] + b[1..];
    }
  }

  ghost predicate Ascending(list: seq<string>) {
    forall i, j :: 0 <= i < j < |list| ==> Less(list[i], list[j])
  }

  ghost predicate ListingOf(list: seq<string>, names: set<string>) {
    Ascending(list) && forall x :: x in list <==> x in names
  }

  function Inserted(list: seq<string>, x: string): seq<string> {
    if list == [] then [x]
    else if Less(x, list[0]) then [x] + list
    else [list[0]] + Inserted(list[1..], x)
  }

  lemma {:induction false} InsertedAscending(list: seq<string>, x: string)
    requires Ascending(list) && x !in list
    ensures Ascending(Inserted(list, x))
    ensures forall y :: y in Inserted(list, x) <==> y in list || y == x
  {
    hide Less;
    if list != [] {
      var first, rest := list[0], list[1..];
      assert list == [first] + rest;
      if Less(x, first) {
        forall j | 0 <= j < |list| ensures Less(x, list[j]) {
          if j > 0 {
            LessTransitive(x, first, list[j]);
          }
        }
      } else {
        LessTotal(x, first);
        assert Ascending(rest) by {
          forall i, j | 0 <= i < j < |rest| ensures Less(rest[i], rest[j]) {
            assert rest[i] == list[i + 1] && rest[j] == list[j + 1];
          }
        }
        InsertedAscending(rest, x);
        var tail := Inserted(rest, x);
        forall j | 0 <= j < |tail| ensures Less(first, tail[j]) {
          assert tail[j] in tail;
          if tail[j] != x {
            assert tail[j] in rest;
            var k :| 0 <= k < |rest| && rest[k] == tail[j];
            assert list[k + 1] == tail[j];
          }
        }
      }
    }
  }

  /** The names in ascending order. */
  method Sort(names: set<string>) returns (list: seq<string>)
    ensures ListingOf(list, names)
  {
    list := [];
    var rest := names;
    while rest != {}
      invariant rest <= names && Ascending(list)
      invariant forall x :: x in list <==> x in names - rest
      decreases |rest|
    {
      var x :| x in rest;
      InsertedAscending(list, x);
      list := Inserted(list, x);
      rest := rest - {x};
    }
  }

  ghost function Sorted(names: set<string>): (list: seq<string>)
    ensures ListingOf(list, names)
  {
    if names == {} then []
    else
      var x :| x in names;
      var rest := Sorted(names - {x});
      InsertedAscending(rest, x);
      Inserted(rest, x)
  }

  /** A folder has one sorted listing, however it was walked. */
  lemma {:induction false} OneListing(a: seq<string>, b: seq<string>, names: set<string>)
    requires ListingOf(a, names) && ListingOf(b, names)
    ensures a == b
    decreases |a|
  {
    hide Less;
    if a == [] {
      HasName(b, names);
    } else {
      assert a[0] in names;
      assert b != [];
      FirstIsLeast(a, names, b[0]);
      FirstIsLeast(b, names, a[0]);
      if a[0] != b[0] {
        LessTransitive(a[0], b[0], a[0]);
        LessIrreflexive(a[0]);
      } else {
        WithoutFirst(a, names);
        WithoutFirst(b, names);
        OneListing(a[1..], b[1..], names - {a[0]});
        assert a == [a[0]] + a[1..] && b == [b[0]] + b[1..];
      }
    }
  }

  lemma HasName(b: seq<string>, names: set<string>)
    requires ListingOf(b, names)
    ensures b != [] ==> exists x :: x in names
  {
    if b != [] {
      assert b[0] in b;
    }
  }

  lemma {:induction false} FirstIsLeast(a: seq<string>, names: set<string>, x: string)
    requires ListingOf(a, names) && a != [] && (x in names || x in a)
    ensures x == a[0] || Less(a[0], x)
  {
    hide Less;
    var i :| 0 <= i < |a| && a[i] == x;
  }

  lemma WithoutFirst(a: seq<string>, names: set<string>)
    requires ListingOf(a, names) && a != []
    ensures ListingOf(a[1..], names - {a[0]})
  {
    hide Less;
    forall i, j | 0 <= i < j < |a| - 1 ensures Less(a[1..][i], a[1..][j]) {
      assert a[1..][i] == a[i + 1] && a[1..][j] == a[j + 1];
    }
    forall x ensures x in a[1..] <==> x in names - {a[0]} {
      if x in a[1..] {
        var i :| 0 <= i < |a| - 1 && a[1..][i] == x;
        assert a[i + 1] == x;
        LessIrreflexive(a[0]);
        assert Less(a[0], a[i + 1]);
      }
      if x in names - {a[0]} {
        var i :| 0 <= i < |a| && a[i] == x;
        assert a[1..][i - 1] == x;
      }
    }
  }
}
