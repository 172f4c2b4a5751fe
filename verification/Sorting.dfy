/** Sorting by a string key, and dropping adjacent repeats (Go's slices.SortFunc and slices.Compact). */
module Sorting {
  import opened Lex

  predicate AtMost(a: string, b: string) { a == b || Less(a, b) }

  predicate SortedBy<T(!new)>(xs: seq<T>, key: T -> string) {
    forall i, j | 0 <= i < j < |xs| :: AtMost(key(xs[i]), key(xs[j]))
  }

  function Insert<T>(x: T, xs: seq<T>, key: T -> string): seq<T> {
    if xs == [] || !Less(key(xs[0]), key(x)) then [x] + xs else [xs[0]] + Insert(x, xs[1..], key)
  }

  function Sort<T>(xs: seq<T>, key: T -> string): seq<T> {
    if xs == [] then [] else Insert(xs[0], Sort(xs[1..], key), key)
  }

  lemma AtMostTransitive(a: string, b: string, c: string)
    requires AtMost(a, b) && AtMost(b, c)
    ensures AtMost(a, c)
  {
    if Less(a, b) && Less(b, c) { LessTransitive(a, b, c); }
  }

  /** A sorted sequence stays sorted behind an element at most its head. */
  lemma ConsSorted<T(!new)>(x: T, xs: seq<T>, key: T -> string)
    requires SortedBy(xs, key) && forall y <- xs :: AtMost(key(x), key(y))
    ensures SortedBy([x] + xs, key)
  {}

  lemma {:induction false} InsertSorts<T(!new)>(x: T, xs: seq<T>, key: T -> string)
    requires SortedBy(xs, key)
    ensures SortedBy(Insert(x, xs, key), key)
    ensures multiset(Insert(x, xs, key)) == multiset(xs) + multiset{x}
    decreases xs
  {
    hide Less, AtMost;
    if xs == [] {
      ConsSorted(x, xs, key);
    } else {
      assert xs == [xs[0]] + xs[1..];
      assert Less(key(xs[0]), key(x)) ==> AtMost(key(xs[0]), key(x)) by { LessIsAtMost(key(xs[0]), key(x)); }
      if Less(key(xs[0]), key(x)) {
        InsertSorts(x, xs[1..], key);
        var rest := Insert(x, xs[1..], key);
        forall y | y in rest ensures AtMost(key(xs[0]), key(y)) {
          assert y in multiset(rest);
        }
        ConsSorted(xs[0], rest, key);
      } else {
        NotLess(key(xs[0]), key(x));
        forall y | y in xs ensures AtMost(key(x), key(y)) {
          if y != xs[0] { AtMostTransitive(key(x), key(xs[0]), key(y)); }
        }
        ConsSorted(x, xs, key);
      }
    }
  }

  lemma LessIsAtMost(a: string, b: string)
    ensures Less(a, b) ==> AtMost(a, b)
  {}

  lemma NotLess(a: string, b: string)
    requires !Less(a, b)
    ensures AtMost(b, a)
  {
    LessTotal(a, b);
  }

  lemma {:induction false} SortSorts<T(!new)>(xs: seq<T>, key: T -> string)
    ensures SortedBy(Sort(xs, key), key) && multiset(Sort(xs, key)) == multiset(xs)
    decreases xs
  {
    if xs != [] {
      SortSorts(xs[1..], key);
      InsertSorts(xs[0], Sort(xs[1..], key), key);
      assert xs == [xs[0]] + xs[1..];
    }
  }

  /** slices.Compact. */
  function Compact<T(==)>(xs: seq<T>): seq<T> {
    if |xs| < 2 then xs
    else if xs[0] == xs[1] then Compact(xs[1..])
    else [xs[0]] + Compact(xs[1..])
  }

  function Elements<T>(xs: seq<T>): set<T> { set x <- xs }

  predicate Strict<T(!new)>(xs: seq<T>, key: T -> string) {
    forall i, j | 0 <= i < j < |xs| :: Less(key(xs[i]), key(xs[j]))
  }

  function Self(s: string): string { s }

  /** Strings in strictly ascending order. */
  predicate Ascending(ids: seq<string>) { Strict(ids, Self) }

  /** The key tells the elements of xs apart. */
  ghost predicate Separates<T(!new)>(xs: seq<T>, key: T -> string) {
    forall x <- xs, y <- xs :: key(x) == key(y) ==> x == y
  }

  /** Sorted, with elements the key tells apart: compacting leaves each exactly once, in strict order. */
  lemma {:induction false} CompactSorted<T(!new)>(xs: seq<T>, key: T -> string)
    requires SortedBy(xs, key) && Separates(xs, key)
    ensures Strict(Compact(xs), key)
    ensures forall x :: x in Compact(xs) <==> x in xs
    ensures xs != [] ==> Compact(xs) != [] && Compact(xs)[0] == xs[0]
    decreases xs
  {
    if |xs| >= 2 {
      assert xs == [xs[0]] + xs[1..];
      CompactSorted(xs[1..], key);
      if xs[0] != xs[1] {
        var rest := Compact(xs[1..]);
        forall i | 0 <= i < |rest| ensures Less(key(xs[0]), key(rest[i])) {
          assert xs[0] in xs && xs[1] in xs;
          assert Less(key(xs[0]), key(xs[1]));
          if i > 0 { LessTransitive(key(xs[0]), key(xs[1]), key(rest[i])); }
        }
      }
    }
  }

  /** Two strictly ordered sequences of the same elements are equal. */
  lemma {:induction false} StrictUnique<T(!new)>(a: seq<T>, b: seq<T>, key: T -> string)
    requires Strict(a, key) && Strict(b, key) && forall x :: x in a <==> x in b
    ensures a == b
    decreases a
  {
    assert a != [] ==> a[0] in b;
    assert b != [] ==> b[0] in a;
    if a != [] {
      var i :| 0 <= i < |b| && b[i] == a[0];
      var j :| 0 <= j < |a| && a[j] == b[0];
      if i > 0 && j > 0 { LessAsymmetric(key(a[0]), key(b[0])); }
      assert a == [a[0]] + a[1..] && b == [b[0]] + b[1..];
      LessIrreflexive(key(a[0]));
      forall x ensures x in a[1..] <==> x in b[1..] {
        if x in a[1..] { assert x in b && x != a[0]; }
        if x in b[1..] { assert x in a && x != b[0]; }
      }
      StrictUnique(a[1..], b[1..], key);
    }
  }

  /** slices.Compact(slices.Sorted(ids)). */
  function SortedSet(ids: seq<string>): seq<string> { Compact(Sort(ids, Self)) }

  lemma SortedSetIs(ids: seq<string>)
    ensures Ascending(SortedSet(ids))
    ensures forall x :: x in SortedSet(ids) <==> x in ids
  {
    SortSorts(ids, Self);
    CompactSorted(Sort(ids, Self), Self);
    forall x ensures x in Sort(ids, Self) <==> x in ids {
      assert x in multiset(Sort(ids, Self)) <==> x in multiset(ids);
    }
  }
}
