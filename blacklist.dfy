/** The two list transformations of the blacklist: adding re-sorts the whole
    list (`[...prev, x].sort()`), removing filters out one value
    (`blacklist.filter(num => num !== x)`). */
module Blacklist {
  import opened JsText

  /** Ascending in JavaScript's default string order. */
  predicate Sorted(s: seq<string>) {
    forall i, j :: 0 <= i < j < |s| ==> LessEq(s[i], s[j])
  }

  /** No number is listed twice. */
  predicate Distinct(s: seq<string>) {
    forall i, j :: 0 <= i < j < |s| ==> s[i] != s[j]
  }

  /** Inserts `x` into the sorted `s` before the first element not below it. */
  function Insert(x: string, s: seq<string>): (r: seq<string>)
    requires Sorted(s)
    ensures Sorted(r)
    ensures multiset(r) == multiset(s) + multiset{x}
    ensures |r| == |s| + 1
  {
    if s == [] then [x]
    else if LessEq(x, s[0]) then
      BelowHead(x, s);
      [x] + s
    else
      assert s == [s[0]] + s[1..];
      var rest := Insert(x, s[1..]);
      LessTotal(x, s[0]);
      HeadBelowInsert(s, x, rest);
      [s[0]] + rest
  }

  lemma BelowHead(x: string, s: seq<string>)
    requires Sorted(s) && s != [] && LessEq(x, s[0])
    ensures forall j :: 0 <= j < |s| ==> LessEq(x, s[j])
  {
    forall j | 0 <= j < |s| ensures LessEq(x, s[j]) {
      if x != s[0] && s[0] != s[j] { LessTransitive(x, s[0], s[j]); }
    }
  }

  lemma HeadBelowInsert(s: seq<string>, x: string, rest: seq<string>)
    requires Sorted(s) && s != [] && LessEq(s[0], x)
    requires multiset(rest) == multiset(s[1..]) + multiset{x}
    ensures forall j :: 0 <= j < |rest| ==> LessEq(s[0], rest[j])
  {
    forall j | 0 <= j < |rest| ensures LessEq(s[0], rest[j]) {
      assert rest[j] in multiset(rest);
      if rest[j] != x {
        assert rest[j] in multiset(s[1..]);
        var k :| 0 <= k < |s[1..]| && s[1..][k] == rest[j];
        assert s[k + 1] == rest[j];
      }
    }
  }

  /** `xs.sort()` with no comparator: the sorted permutation of `xs`. */
  function Sort(xs: seq<string>): (r: seq<string>)
    ensures Sorted(r)
    ensures multiset(r) == multiset(xs)
    ensures |r| == |xs|
  {
    if xs == [] then []
    else
      var n := |xs| - 1;
      assert xs == xs[..n] + [xs[n]];
      Insert(xs[n], Sort(xs[..n]))
  }

  /** A sorted list is fixed by its contents: any two sorted permutations of
      one multiset are equal, so the result does not depend on which sorting
      algorithm the engine uses. */
  lemma {:induction false} SortedUnique(a: seq<string>, b: seq<string>)
    requires Sorted(a) && Sorted(b)
    requires multiset(a) == multiset(b)
    ensures a == b
  {
    if a == [] || b == [] {
      assert |multiset(a)| == |a| && |multiset(b)| == |b|;
    } else {
      SameHead(a, b);
      TailMultiset(a);
      TailMultiset(b);
      SortedUnique(a[1..], b[1..]);
      assert a == [a[0]] + a[1..] && b == [b[0]] + b[1..];
    }
  }

  lemma SameHead(a: seq<string>, b: seq<string>)
    requires Sorted(a) && Sorted(b) && a != [] && b != []
    requires multiset(a) == multiset(b)
    ensures a[0] == b[0]
  {
    assert a[0] in multiset(b) && b[0] in multiset(a);
    SortedHeadLeast(b, a[0]);
    SortedHeadLeast(a, b[0]);
    LessEqAntisymmetric(a[0], b[0]);
  }

  lemma SortedHeadLeast(a: seq<string>, x: string)
    requires Sorted(a) && x in a
    ensures LessEq(a[0], x)
  {
    var i :| 0 <= i < |a| && a[i] == x;
    if i > 0 {
      assert LessEq(a[0], a[i]);
    }
  }

  lemma TailMultiset(a: seq<string>)
    requires a != []
    ensures multiset(a[1..]) == multiset(a) - multiset{a[0]}
  {
    assert a == [a[0]] + a[1..];
  }

  /** Sorting a list that is already ascending leaves it as it is. */
  lemma SortSorted(xs: seq<string>)
    requires Sorted(xs)
    ensures Sort(xs) == xs
  {
    SortedUnique(Sort(xs), xs);
  }

  /** `s.filter(x => x !== v)`: every element other than `v`, in order. */
  function Without(s: seq<string>, v: string): (r: seq<string>)
    ensures v !in r
    ensures forall x :: x in r <==> x in s && x != v
    ensures multiset(r) == multiset(s)[v := 0]
    ensures v !in s ==> r == s
  {
    if s == [] then
      assert multiset(s)[v := 0] == multiset{};
      []
    else
      var rest := Without(s[1..], v);
      assert s == [s[0]] + s[1..];
      assert multiset(s) == multiset{s[0]} + multiset(s[1..]);
      if s[0] == v then rest else [s[0]] + rest
  }

  /** `r` is `s` with some elements dropped and the others kept in order. */
  predicate Subsequence(r: seq<string>, s: seq<string>) {
    if r == [] then true
    else if s == [] then false
    else if r[0] == s[0] then Subsequence(r[1..], s[1..])
    else Subsequence(r, s[1..])
  }

  /** Removal keeps the remaining numbers in their original relative order. */
  lemma {:induction false} WithoutIsSubsequence(s: seq<string>, v: string)
    ensures Subsequence(Without(s, v), s)
  {
    if s != [] {
      WithoutIsSubsequence(s[1..], v);
      if s[0] == v {
        SubsequenceOfTail(Without(s[1..], v), s);
      }
    }
  }

  lemma {:induction false} SubsequenceOfTail(r: seq<string>, s: seq<string>)
    requires s != [] && Subsequence(r, s[1..])
    ensures Subsequence(r, s)
    decreases |s|, |r|
  {
    if r != [] && r[0] == s[0] {
      SubsequenceDrop(r, s[1..]);
    }
  }

  lemma {:induction false} SubsequenceDrop(r: seq<string>, s: seq<string>)
    requires r != [] && Subsequence(r, s)
    ensures Subsequence(r[1..], s)
    decreases |s|, |r|
  {
    if r[0] != s[0] {
      SubsequenceDrop(r, s[1..]);
    }
    if r[1..] != [] {
      SubsequenceOfTail(r[1..], s);
    }
  }

  /** Removing keeps the list ascending. */
  lemma {:induction false} WithoutSorted(s: seq<string>, v: string)
    requires Sorted(s)
    ensures Sorted(Without(s, v))
  {
    if s != [] {
      WithoutSorted(s[1..], v);
      var rest := Without(s[1..], v);
      forall j | 0 <= j < |rest| ensures LessEq(s[0], rest[j]) {
        assert rest[j] in s[1..];
        var k :| 0 <= k < |s[1..]| && s[1..][k] == rest[j];
        assert s[k + 1] == rest[j];
      }
    }
  }

  /** Removing never introduces a duplicate. */
  lemma {:induction false} WithoutDistinct(s: seq<string>, v: string)
    requires Distinct(s)
    ensures Distinct(Without(s, v))
  {
    if s != [] {
      WithoutDistinct(s[1..], v);
      var rest := Without(s[1..], v);
      assert s[0] !in rest;
    }
  }

  /** Removing twice removes nothing more. */
  lemma WithoutIdempotent(s: seq<string>, v: string)
    ensures Without(Without(s, v), v) == Without(s, v)
  {
  }

  lemma {:induction false} DistinctCount(s: seq<string>, x: string)
    requires Distinct(s)
    ensures multiset(s)[x] <= 1
  {
    if s != [] {
      var n := |s| - 1;
      assert s == s[..n] + [s[n]];
      assert Distinct(s[..n]);
      DistinctCount(s[..n], x);
      if x == s[n] {
        assert x !in s[..n];
      }
    }
  }

  lemma {:induction false} DuplicateCount(s: seq<string>, i: nat, j: nat)
    requires i < j < |s| && s[i] == s[j]
    ensures multiset(s)[s[i]] >= 2
  {
    assert s == s[..j] + [s[j]] + s[j + 1..];
    assert s[i] == s[..j][i];
    assert multiset(s[..j])[s[i]] >= 1;
  }

  /** Reordering a list without duplicates cannot create one. */
  lemma PermutationDistinct(a: seq<string>, b: seq<string>)
    requires Distinct(a) && multiset(a) == multiset(b)
    ensures Distinct(b)
  {
    forall i, j | 0 <= i < j < |b| ensures b[i] != b[j] {
      if b[i] == b[j] {
        DuplicateCount(b, i, j);
        DistinctCount(a, b[i]);
      }
    }
  }

  /** After an add the list holds exactly the old numbers and the new one. */
  lemma AddContents(s: seq<string>, x: string)
    ensures forall y :: y in Sort(s + [x]) <==> y in s || y == x
  {
    var r := Sort(s + [x]);
    forall y ensures y in r <==> y in s || y == x {
      assert y in r <==> y in multiset(r);
      assert y in s + [x] <==> y in multiset(s + [x]);
    }
  }

  /** Adding a value that is absent to a list without duplicates yields a
      sorted list without duplicates that holds exactly the old values and
      the new one. */
  lemma AddDistinct(s: seq<string>, x: string)
    requires Distinct(s) && x !in s
    ensures Distinct(Sort(s + [x]))
  {
    assert Distinct(s + [x]);
    PermutationDistinct(s + [x], Sort(s + [x]));
  }

  /** Adding a new number and then removing it gives back the list it was
      added to, sorted; when that list was already ascending, the list itself. */
  lemma AddThenRemove(s: seq<string>, x: string)
    requires x !in s
    ensures Without(Sort(s + [x]), x) == Sort(s)
    ensures Sorted(s) ==> Without(Sort(s + [x]), x) == s
  {
    var r := Without(Sort(s + [x]), x);
    assert multiset(s)[x] == 0;
    assert multiset(r) == multiset(s);
    WithoutSorted(Sort(s + [x]), x);
    SortedUnique(r, Sort(s));
    if Sorted(s) {
      SortSorted(s);
    }
  }

  /** Removing a listed number from a list without duplicates and adding it
      back gives back the list, sorted; when it was already ascending, the
      list itself. */
  lemma RemoveThenAdd(s: seq<string>, x: string)
    requires Distinct(s) && x in s
    ensures Sort(Without(s, x) + [x]) == Sort(s)
    ensures Sorted(s) ==> Sort(Without(s, x) + [x]) == s
  {
    DistinctCount(s, x);
    assert multiset(Without(s, x) + [x]) == multiset(s);
    SortedUnique(Sort(Without(s, x) + [x]), Sort(s));
    if Sorted(s) {
      SortSorted(s);
    }
  }
}
