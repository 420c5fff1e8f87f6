/** Sequences in the order of a strict total order, and why there is only one of them. */
module Sorting {

  /** `before` orders the elements of `domain` strictly and totally. */
  ghost predicate StrictTotal<T(!new)>(before: (T, T) -> bool, domain: set<T>) {
    && (forall x :: x in domain ==> !before(x, x))
    && (forall x, y :: x in domain && y in domain && x != y ==> before(x, y) || before(y, x))
    && (forall x, y, z :: x in domain && y in domain && z in domain && before(x, y) && before(y, z) ==> before(x, z))
  }

  predicate Ascending<T>(s: seq<T>, before: (T, T) -> bool) {
    forall i, j :: 0 <= i < j < |s| ==> before(s[i], s[j])
  }

  /** `s` lists the elements of `domain` in order. */
  ghost predicate Lists<T(!new)>(s: seq<T>, domain: set<T>, before: (T, T) -> bool) {
    Ascending(s, before) && forall x :: x in s <==> x in domain
  }

  lemma {:induction false} LengthIsSize<T(!new)>(s: seq<T>, domain: set<T>, before: (T, T) -> bool)
    requires StrictTotal(before, domain) && Lists(s, domain, before)
    ensures |s| == |domain|
    decreases |s|
  {
    if s == [] {
      assert domain == {};
    } else {
      assert s[0] in domain;
      DropFirst(s, domain, before);
      LengthIsSize(s[1..], domain - {s[0]}, before);
    }
  }

  /** A set is listed in order in one way only. */
  lemma {:induction false} OneListing<T(!new)>(a: seq<T>, b: seq<T>, domain: set<T>, before: (T, T) -> bool)
    requires StrictTotal(before, domain) && Lists(a, domain, before) && Lists(b, domain, before)
    ensures a == b
    decreases |a|
  {
    LengthIsSize(a, domain, before);
    LengthIsSize(b, domain, before);
    if a != [] {
      FirstIsLeast(a, domain, before);
      FirstIsLeast(b, domain, before);
      assert a[0] == b[0];
      DropFirst(a, domain, before);
      DropFirst(b, domain, before);
      OneListing(a[1..], b[1..], domain - {a[0]}, before);
      assert a == [a[0]] + a[1..] && b == [b[0]] + b[1..];
    }
  }

  lemma FirstIsLeast<T(!new)>(s: seq<T>, domain: set<T>, before: (T, T) -> bool)
    requires Lists(s, domain, before) && s != []
    ensures s[0] in domain && forall x :: x in domain && x != s[0] ==> before(s[0], x)
  {
    forall x | x in domain && x != s[0] ensures before(s[0], x) {
      var i :| 0 <= i < |s| && s[i] == x;
    }
  }

  lemma DropFirst<T(!new)>(s: seq<T>, domain: set<T>, before: (T, T) -> bool)
    requires StrictTotal(before, domain) && Lists(s, domain, before) && s != []
    ensures Lists(s[1..], domain - {s[0]}, before)
  {
    assert s[0] in domain;
    forall x ensures x in s[1..] <==> x in domain - {s[0]} {
      if x in s[1..] {
        var i :| 0 <= i < |s[1..]| && s[1..][i] == x;
        assert s[i + 1] == x && x in s && before(s[0], s[i + 1]);
      }
      if x in domain - {s[0]} {
        var i :| 0 <= i < |s| && s[i] == x;
        assert s[1..][i - 1] == x;
      }
    }
  }

  /** The elements of `s` and `x`, which is put before the first element it precedes. */
  function Insert<T>(x: T, s: seq<T>, before: (T, T) -> bool): seq<T> {
    if s == [] || before(x, s[0]) then [x] + s else [s[0]] + Insert(x, s[1..], before)
  }

  lemma {:induction false} InsertElements<T(!new)>(x: T, s: seq<T>, before: (T, T) -> bool)
    ensures forall y :: y in Insert(x, s, before) <==> y == x || y in s
  {
    if s == [] || before(x, s[0]) {
    } else {
      InsertElements(x, s[1..], before);
      assert s == [s[0]] + s[1..];
    }
  }

  lemma {:induction false} InsertAscends<T(!new)>(x: T, s: seq<T>, domain: set<T>, before: (T, T) -> bool)
    requires StrictTotal(before, domain) && Ascending(s, before) && x in domain && x !in s
    requires forall y :: y in s ==> y in domain
    ensures Ascending(Insert(x, s, before), before)
  {
    if s == [] {
    } else if before(x, s[0]) {
      forall j | 0 <= j < |s| ensures before(x, s[j]) {
        assert s[j] in domain && s[0] in domain;
        assert j > 0 ==> before(s[0], s[j]);
      }
    } else {
      assert s[0] in domain && s[0] != x;
      forall y | y in s[1..] ensures y in domain && y != x && before(s[0], y) {
        var i :| 0 <= i < |s[1..]| && s[1..][i] == y;
        assert s[i + 1] == y && s[i + 1] in s && before(s[0], s[i + 1]);
      }
      InsertAscends(x, s[1..], domain, before);
      InsertElements(x, s[1..], before);
      var rest := Insert(x, s[1..], before);
      forall j | 0 <= j < |rest| ensures before(s[0], rest[j]) {
        assert rest[j] in rest;
      }
    }
  }

  function Sort<T>(s: seq<T>, before: (T, T) -> bool): seq<T> {
    if s == [] then [] else Insert(s[|s| - 1], Sort(s[..|s| - 1], before), before)
  }

  predicate Distinct<T(==)>(s: seq<T>) {
    forall i, j :: 0 <= i < j < |s| ==> s[i] != s[j]
  }

  /** Sorting a sequence without repetitions lists its elements. */
  lemma {:induction false} SortLists<T(!new)>(s: seq<T>, domain: set<T>, before: (T, T) -> bool)
    requires StrictTotal(before, domain) && Distinct(s) && forall x :: x in s ==> x in domain
    ensures Ascending(Sort(s, before), before)
    ensures forall x :: x in Sort(s, before) <==> x in s
  {
    if s != [] {
      var rest, last := s[..|s| - 1], s[|s| - 1];
      assert s == rest + [last];
      SortLists(rest, domain, before);
      InsertElements(last, Sort(rest, before), before);
      InsertAscends(last, Sort(rest, before), domain, before);
    }
  }
}
