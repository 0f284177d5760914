/** JavaScript's `Array.prototype.sort`, which is stable, modelled as a stable
    insertion sort under a comparison `le` ("may stay before"). For a comparator
    `cmp`, `le(a, b)` is `cmp(a, b) <= 0`. */
module Sorting {
  import opened Seqs

  /** `le` is total and transitive: a consistent comparator. */
  ghost predicate TotalPreorder<T(!new)>(le: (T, T) -> bool)
  {
    (forall a, b :: le(a, b) || le(b, a)) &&
    (forall a, b, c :: le(a, b) && le(b, c) ==> le(a, c))
  }

  predicate SortedBy<T>(s: seq<T>, le: (T, T) -> bool)
  {
    forall i, j :: 0 <= i < j < |s| ==> le(s[i], s[j])
  }

  /** Inserts `x` after the longest suffix of `t` whose elements must not stay before it. */
  function Insert<T>(x: T, t: seq<T>, le: (T, T) -> bool): (r: seq<T>)
    ensures |r| == |t| + 1
    ensures multiset(r) == multiset(t) + multiset{x}
  {
    if t == [] then [x]
    else if le(t[|t| - 1], x) then t + [x]
    else
      var last := t[|t| - 1];
      assert t == t[..|t| - 1] + [last];
      Insert(x, t[..|t| - 1], le) + [last]
  }

  /** The sorted permutation of `s`, ties in their order in `s`. */
  function SortBy<T>(s: seq<T>, le: (T, T) -> bool): (r: seq<T>)
    ensures |r| == |s|
    ensures multiset(r) == multiset(s)
  {
    if s == [] then []
    else
      assert s == s[..|s| - 1] + [s[|s| - 1]];
      Insert(s[|s| - 1], SortBy(s[..|s| - 1], le), le)
  }

  lemma {:induction false} InsertSorted<T(!new)>(x: T, t: seq<T>, le: (T, T) -> bool)
    requires TotalPreorder(le) && SortedBy(t, le)
    ensures SortedBy(Insert(x, t, le), le)
  {
    if t != [] && !le(t[|t| - 1], x) {
      var init := t[..|t| - 1];
      var last := t[|t| - 1];
      InsertSorted(x, init, le);
      var r := Insert(x, init, le);
      assert le(x, last);
      forall y | y in r ensures le(y, last) {
        assert y in multiset(r);
        if y != x {
          assert y in multiset(init);
          var k :| 0 <= k < |init| && init[k] == y;
          assert t[k] == y;
        }
      }
      var r' := r + [last];
      forall i, j | 0 <= i < j < |r'| ensures le(r'[i], r'[j]) {
        if j == |r'| - 1 {
          assert r'[i] in r;
        }
      }
    }
  }

  lemma {:induction false} SortBySorted<T(!new)>(s: seq<T>, le: (T, T) -> bool)
    requires TotalPreorder(le)
    ensures SortedBy(SortBy(s, le), le)
  {
    if s != [] {
      SortBySorted(s[..|s| - 1], le);
      InsertSorted(s[|s| - 1], SortBy(s[..|s| - 1], le), le);
    }
  }

  /** The elements of `s` that tie with `z` (neither must come before the other), in order. */
  function TiesWith<T>(s: seq<T>, le: (T, T) -> bool, z: T): seq<T>
  {
    if s == [] then []
    else TiesWith(s[..|s| - 1], le, z) + (if Tie(le, z, s[|s| - 1]) then [s[|s| - 1]] else [])
  }

  predicate Tie<T>(le: (T, T) -> bool, a: T, b: T)
  {
    le(a, b) && le(b, a)
  }

  lemma {:induction false} TiesWithAppend<T>(s: seq<T>, t: seq<T>, le: (T, T) -> bool, z: T)
    ensures TiesWith(s + t, le, z) == TiesWith(s, le, z) + TiesWith(t, le, z)
    decreases |t|
  {
    if t == [] {
      assert s + t == s;
    } else {
      assert (s + t)[..|s + t| - 1] == s + t[..|t| - 1];
      TiesWithAppend(s, t[..|t| - 1], le, z);
    }
  }

  lemma {:induction false} InsertKeepsTies<T(!new)>(x: T, t: seq<T>, le: (T, T) -> bool, z: T)
    requires TotalPreorder(le)
    ensures TiesWith(Insert(x, t, le), le, z) ==
            TiesWith(t, le, z) + (if Tie(le, z, x) then [x] else [])
  {
    if t == [] {
      assert Insert(x, t, le) == [x];
      assert TiesWith([x], le, z) == TiesWith([], le, z) + (if Tie(le, z, x) then [x] else []);
    } else if le(t[|t| - 1], x) {
      assert Insert(x, t, le) == t + [x];
      assert (t + [x])[..|t|] == t;
    } else {
      var init := t[..|t| - 1];
      var last := t[|t| - 1];
      var r := Insert(x, init, le);
      InsertKeepsTies(x, init, le, z);
      assert Insert(x, t, le) == r + [last];
      assert (r + [last])[..|r|] == r;
      assert t == init + [last];
    }
  }

  /** Sorting is stable: the elements tying with any `z` keep their relative order. */
  lemma {:induction false} SortByStable<T(!new)>(s: seq<T>, le: (T, T) -> bool, z: T)
    requires TotalPreorder(le)
    ensures TiesWith(SortBy(s, le), le, z) == TiesWith(s, le, z)
  {
    if s != [] {
      var init := s[..|s| - 1];
      var x := s[|s| - 1];
      SortByStable(init, le, z);
      InsertKeepsTies(x, SortBy(init, le), le, z);
    }
  }

  /** Sorting a sequence that is already sorted changes nothing. */
  lemma {:induction false} SortBySortedIsIdentity<T>(s: seq<T>, le: (T, T) -> bool)
    requires SortedBy(s, le)
    ensures SortBy(s, le) == s
  {
    if s != [] {
      var init := s[..|s| - 1];
      assert SortedBy(init, le);
      SortBySortedIsIdentity(init, le);
      if init != [] {
        assert le(init[|init| - 1], s[|s| - 1]);
      }
      assert init + [s[|s| - 1]] == s;
    }
  }

  /** Sorting is idempotent. */
  lemma SortByIdempotent<T(!new)>(s: seq<T>, le: (T, T) -> bool)
    requires TotalPreorder(le)
    ensures SortBy(SortBy(s, le), le) == SortBy(s, le)
  {
    SortBySorted(s, le);
    SortBySortedIsIdentity(SortBy(s, le), le);
  }

  /** `le1` and `le2` answer alike on every pair of elements of `s`. */
  ghost predicate AgreeOn<T(!new)>(le1: (T, T) -> bool, le2: (T, T) -> bool, s: seq<T>)
  {
    forall a, b | a in s && b in s :: le1(a, b) == le2(a, b)
  }

  lemma {:induction false} InsertCongruent<T(!new)>(x: T, t: seq<T>, le1: (T, T) -> bool, le2: (T, T) -> bool)
    requires AgreeOn(le1, le2, t + [x])
    ensures Insert(x, t, le1) == Insert(x, t, le2)
  {
    if t != [] {
      var init := t[..|t| - 1];
      var last := t[|t| - 1];
      assert last in t + [x] && x in t + [x];
      assert forall a | a in init + [x] :: a in t + [x];
      InsertCongruent(x, init, le1, le2);
    }
  }

  /** The sort only consults the comparator on pairs of its own elements. */
  lemma {:induction false} SortByCongruent<T(!new)>(s: seq<T>, le1: (T, T) -> bool, le2: (T, T) -> bool)
    requires AgreeOn(le1, le2, s)
    ensures SortBy(s, le1) == SortBy(s, le2)
  {
    if s != [] {
      var init := s[..|s| - 1];
      var x := s[|s| - 1];
      assert forall a | a in init :: a in s;
      SortByCongruent(init, le1, le2);
      var t := SortBy(init, le1);
      forall a | a in t + [x] ensures a in s {
        if a != x {
          assert a in multiset(t);
          assert a in multiset(init);
        }
      }
      InsertCongruent(x, t, le1, le2);
    }
  }

  lemma {:induction false} SumOfInsert<T>(x: T, t: seq<T>, le: (T, T) -> bool, f: T -> nat)
    ensures SumOf(Insert(x, t, le), f) == SumOf(t, f) + f(x)
  {
    if t != [] && !le(t[|t| - 1], x) {
      var init := t[..|t| - 1];
      SumOfInsert(x, init, le, f);
      assert Insert(x, t, le)[..|t|] == Insert(x, init, le);
    }
  }

  /** Sorting keeps every sum over the elements. */
  lemma {:induction false} SumOfSortBy<T>(s: seq<T>, le: (T, T) -> bool, f: T -> nat)
    ensures SumOf(SortBy(s, le), f) == SumOf(s, f)
  {
    if s != [] {
      SumOfSortBy(s[..|s| - 1], le, f);
      SumOfInsert(s[|s| - 1], SortBy(s[..|s| - 1], le), le, f);
    }
  }

  /** JavaScript's default string order (`Array.prototype.sort()` with no comparator,
      and `<` on strings): lexicographic by character, a prefix first. */
  predicate StringLe(a: string, b: string)
  {
    a == [] || (b != [] && (a[0] < b[0] || (a[0] == b[0] && StringLe(a[1..], b[1..]))))
  }

  lemma {:induction false} StringLeTotal(a: string, b: string)
    ensures StringLe(a, b) || StringLe(b, a)
  {
    if a != [] && b != [] && a[0] == b[0] {
      StringLeTotal(a[1..], b[1..]);
    }
  }

  lemma {:induction false} StringLeTransitive(a: string, b: string, c: string)
    requires StringLe(a, b) && StringLe(b, c)
    ensures StringLe(a, c)
  {
    if a != [] && a[0] == b[0] && b[0] == c[0] {
      StringLeTransitive(a[1..], b[1..], c[1..]);
    }
  }

  lemma {:induction false} StringLeAntisymmetric(a: string, b: string)
    requires StringLe(a, b) && StringLe(b, a)
    ensures a == b
  {
    if a != [] {
      StringLeAntisymmetric(a[1..], b[1..]);
      assert a == [a[0]] + a[1..] && b == [b[0]] + b[1..];
    }
  }

  lemma StringLeIsPreorder()
    ensures TotalPreorder(StringLe)
  {
    forall a, b ensures StringLe(a, b) || StringLe(b, a) {
      StringLeTotal(a, b);
    }
    forall a, b, c | StringLe(a, b) && StringLe(b, c) ensures StringLe(a, c) {
      StringLeTransitive(a, b, c);
    }
  }

  /** `Array.from(set).sort()`: the distinct strings in ascending order. */
  function SortStrings(s: seq<string>): seq<string>
  {
    SortBy(s, StringLe)
  }

  /** Sorting distinct strings gives a strictly ascending list of the same strings. */
  lemma SortStringsStrict(s: seq<string>)
    requires NoDuplicates(s)
    ensures forall x :: x in SortStrings(s) <==> x in s
    ensures NoDuplicates(SortStrings(s))
    ensures forall i, j :: 0 <= i < j < |SortStrings(s)| ==>
              StringLe(SortStrings(s)[i], SortStrings(s)[j]) && SortStrings(s)[i] != SortStrings(s)[j]
  {
    var r := SortStrings(s);
    StringLeIsPreorder();
    SortBySorted(s, StringLe);
    forall x ensures x in r <==> x in s {
      assert x in r <==> x in multiset(r);
      assert x in s <==> x in multiset(s);
    }
    NoDuplicatesPermutation(s, r);
  }
}
