/** Generic sequence operations shared by the model: filtering, flattening,
    first-occurrence de-duplication, JavaScript `slice(0, end)` and sums. */
module Seqs {

  /** `s.filter(p)`, keeping the order of `s`. */
  function Filter<T(==,!new)>(s: seq<T>, p: T -> bool): (r: seq<T>)
    ensures |r| <= |s|
    ensures forall x :: x in r <==> x in s && p(x)
    ensures multiset(r) <= multiset(s)
  {
    if s == [] then []
    else
      var init := Filter(s[..|s| - 1], p);
      assert s == s[..|s| - 1] + [s[|s| - 1]];
      if p(s[|s| - 1]) then init + [s[|s| - 1]] else init
  }

  lemma {:induction false} FilterAppend<T(!new)>(s: seq<T>, t: seq<T>, p: T -> bool)
    ensures Filter(s + t, p) == Filter(s, p) + Filter(t, p)
    decreases |t|
  {
    if t == [] {
      assert s + t == s;
    } else {
      var t' := t[..|t| - 1];
      assert (s + t)[..|s + t| - 1] == s + t';
      FilterAppend(s, t', p);
    }
  }

  /** A filter keeps every element when all of them satisfy the predicate. */
  lemma {:induction false} FilterAll<T(!new)>(s: seq<T>, p: T -> bool)
    requires forall x :: x in s ==> p(x)
    ensures Filter(s, p) == s
  {
    if s != [] {
      FilterAll(s[..|s| - 1], p);
      assert s == s[..|s| - 1] + [s[|s| - 1]];
    }
  }

  /** `arrays.flat()`: the concatenation of the sequences in order. */
  function Flatten<T>(ss: seq<seq<T>>): (r: seq<T>)
    ensures |ss| == 1 ==> r == ss[0]
  {
    if ss == [] then [] else Flatten(ss[..|ss| - 1]) + ss[|ss| - 1]
  }

  /** Flattening distributes over concatenation. */
  lemma {:induction false} FlattenAppend<T>(ss: seq<seq<T>>, tt: seq<seq<T>>)
    ensures Flatten(ss + tt) == Flatten(ss) + Flatten(tt)
    decreases |tt|
  {
    if tt == [] {
      assert ss + tt == ss;
    } else {
      assert (ss + tt)[..|ss + tt| - 1] == ss + tt[..|tt| - 1];
      FlattenAppend(ss, tt[..|tt| - 1]);
    }
  }

  /** Flattening sequences of at most one element each gives no more elements than
      there are sequences. */
  lemma {:induction false} FlattenAtMostOne<T>(ss: seq<seq<T>>)
    requires forall i :: 0 <= i < |ss| ==> |ss[i]| <= 1
    ensures |Flatten(ss)| <= |ss|
  {
    if ss != [] {
      FlattenAtMostOne(ss[..|ss| - 1]);
    }
  }

  /** Flattening singletons gives their elements, one per sequence and in order. */
  lemma {:induction false} FlattenSingletons<T>(ss: seq<seq<T>>)
    requires forall i :: 0 <= i < |ss| ==> |ss[i]| == 1
    ensures |Flatten(ss)| == |ss|
    ensures forall i :: 0 <= i < |ss| ==> Flatten(ss)[i] == ss[i][0]
  {
    if ss != [] {
      var init := ss[..|ss| - 1];
      FlattenSingletons(init);
      var r := Flatten(ss);
      assert r == Flatten(init) + ss[|ss| - 1];
      forall i | 0 <= i < |ss| ensures r[i] == ss[i][0] {
        if i < |init| {
          assert ss[i] == init[i];
        }
      }
    }
  }

  /** Mapping distributes over concatenation. */
  lemma MapAppend<A, B>(s: seq<A>, t: seq<A>, f: A -> B)
    ensures Map(s + t, f) == Map(s, f) + Map(t, f)
  {
    var a := Map(s + t, f);
    var b := Map(s, f) + Map(t, f);
    forall k | 0 <= k < |a| ensures a[k] == b[k] {
      if k < |s| {
        assert (s + t)[k] == s[k];
      } else {
        assert (s + t)[k] == t[k - |s|];
      }
    }
  }

  /** No element occurs twice. */
  predicate NoDuplicates<T(==)>(s: seq<T>)
  {
    forall i, j :: 0 <= i < j < |s| ==> s[i] != s[j]
  }

  /** No element occurs twice exactly when no element has multiplicity above one. */
  lemma {:induction false} NoDuplicatesCount<T>(s: seq<T>)
    ensures NoDuplicates(s) <==> forall x :: multiset(s)[x] <= 1
  {
    if s != [] {
      var init := s[..|s| - 1];
      var y := s[|s| - 1];
      NoDuplicatesCount(init);
      assert s == init + [y];
      assert multiset(s) == multiset(init) + multiset{y};
      if NoDuplicates(s) {
        assert NoDuplicates(init) by {
          forall i, j | 0 <= i < j < |init| ensures init[i] != init[j] {
            assert init[i] == s[i] && init[j] == s[j];
          }
        }
        assert y !in multiset(init);
      } else {
        var i, j :| 0 <= i < j < |s| && s[i] == s[j];
        if j < |s| - 1 {
          assert init[i] == init[j];
          assert !NoDuplicates(init);
          var x :| multiset(init)[x] > 1;
          assert multiset(s)[x] > 1;
        } else {
          assert s[i] in init;
          assert multiset(s)[y] >= 2;
        }
      }
    }
  }

  /** A permutation of a duplicate-free sequence is duplicate-free. */
  lemma NoDuplicatesPermutation<T>(s: seq<T>, r: seq<T>)
    requires multiset(s) == multiset(r) && NoDuplicates(s)
    ensures NoDuplicates(r)
  {
    NoDuplicatesCount(s);
    NoDuplicatesCount(r);
  }

  /** The elements of `s` in order of first occurrence, each once: what
      `Array.from(new Set(s))` yields. */
  function Distinct<T(==,!new)>(s: seq<T>): (r: seq<T>)
    ensures forall x :: x in r <==> x in s
    ensures NoDuplicates(r)
  {
    if s == [] then []
    else
      var d := Distinct(s[..|s| - 1]);
      var x := s[|s| - 1];
      assert s == s[..|s| - 1] + [x];
      if x in d then d else d + [x]
  }

  lemma DistinctSnoc<T(!new)>(s: seq<T>, x: T)
    ensures Distinct(s + [x]) == AddUnique(Distinct(s), x)
  {
    assert (s + [x])[..|s|] == s;
  }

  /** De-duplication keeps at least one element of a non-empty sequence and never
      adds any. */
  lemma {:induction false} DistinctLength<T(!new)>(s: seq<T>)
    ensures |Distinct(s)| <= |s|
    ensures s != [] ==> |Distinct(s)| >= 1
  {
    if s != [] {
      DistinctLength(s[..|s| - 1]);
    }
  }

  lemma SplitLast<T>(s: seq<T>)
    requires s != []
    ensures s == s[..|s| - 1] + [s[|s| - 1]]
  {
  }

  lemma TakeSnoc<T>(s: seq<T>, i: nat)
    requires i < |s|
    ensures s[..i + 1] == s[..i] + [s[i]]
  {
  }

  /** The set of the elements of `s`. */
  function SetOf<T>(s: seq<T>): set<T>
  {
    if s == [] then {} else SetOf(s[..|s| - 1]) + {s[|s| - 1]}
  }

  lemma {:induction false} SetOfMembers<T>(s: seq<T>)
    ensures forall x :: x in SetOf(s) <==> x in s
  {
    if s != [] {
      SetOfMembers(s[..|s| - 1]);
      assert s == s[..|s| - 1] + [s[|s| - 1]];
    }
  }

  /** `set.add(x)` on a set kept as its elements in insertion order. */
  function AddUnique<T(==,!new)>(s: seq<T>, x: T): (r: seq<T>)
    ensures x in r && forall y :: y in r <==> y in s || y == x
    ensures NoDuplicates(s) ==> NoDuplicates(r)
    ensures x in s ==> r == s
  {
    if x in s then s else s + [x]
  }

  /** `array.reverse()`. */
  function Reverse<T>(s: seq<T>): (r: seq<T>)
    ensures |r| == |s|
    ensures forall i :: 0 <= i < |s| ==> r[i] == s[|s| - 1 - i]
  {
    if s == [] then [] else [s[|s| - 1]] + Reverse(s[..|s| - 1])
  }

  /** `s.map(f)`. */
  function Map<A, B>(s: seq<A>, f: A -> B): (r: seq<B>)
    ensures |r| == |s|
    ensures forall i :: 0 <= i < |s| ==> r[i] == f(s[i])
  {
    seq(|s|, i requires 0 <= i < |s| => f(s[i]))
  }

  /** Mapping one more element appends its image. */
  lemma MapSnoc<A, B>(s: seq<A>, f: A -> B, i: nat)
    requires i < |s|
    ensures Map(s[..i + 1], f) == Map(s[..i], f) + [f(s[i])]
  {
    var a := Map(s[..i + 1], f);
    var b := Map(s[..i], f) + [f(s[i])];
    forall k | 0 <= k < |a| ensures a[k] == b[k] {
      assert s[..i + 1][k] == s[k];
      if k < i {
        assert s[..i][k] == s[k];
      }
    }
  }

  /** The number of elements of `s` that satisfy `p`. */
  function CountIf<T(==,!new)>(s: seq<T>, p: T -> bool): nat
  {
    |Filter(s, p)|
  }

  /** The sum of `f` over the elements of `s`, left to right. */
  function SumOf<T>(s: seq<T>, f: T -> nat): nat
  {
    if s == [] then 0 else SumOf(s[..|s| - 1], f) + f(s[|s| - 1])
  }

  /** Two sequences whose elements contribute equally, position by position, have
      the same sum. */
  lemma {:induction false} SumOfPointwise<A, B>(s: seq<A>, f: A -> nat, t: seq<B>, g: B -> nat)
    requires |s| == |t|
    requires forall i :: 0 <= i < |s| ==> f(s[i]) == g(t[i])
    ensures SumOf(s, f) == SumOf(t, g)
  {
    if s != [] {
      SumOfPointwise(s[..|s| - 1], f, t[..|t| - 1], g);
    }
  }

  lemma {:induction false} SumOfAppend<T>(s: seq<T>, t: seq<T>, f: T -> nat)
    ensures SumOf(s + t, f) == SumOf(s, f) + SumOf(t, f)
    decreases |t|
  {
    if t == [] {
      assert s + t == s;
    } else {
      assert (s + t)[..|s + t| - 1] == s + t[..|t| - 1];
      SumOfAppend(s, t[..|t| - 1], f);
    }
  }

  lemma SumOfCons<T>(x: T, s: seq<T>, f: T -> nat)
    ensures SumOf([x] + s, f) == f(x) + SumOf(s, f)
  {
    SumOfAppend([x], s, f);
    assert [x][..0] == [];
  }

  /** Replacing one element changes the sum by the difference of the two values. */
  lemma {:induction false} SumOfUpdate<T>(s: seq<T>, i: nat, x: T, f: T -> nat)
    requires i < |s|
    ensures SumOf(s[i := x], f) + f(s[i]) == SumOf(s, f) + f(x)
  {
    var init := s[..|s| - 1];
    if i == |s| - 1 {
      assert s[i := x][..|s| - 1] == init;
    } else {
      SumOfUpdate(init, i, x, f);
      assert s[i := x][..|s| - 1] == init[i := x];
    }
  }

  /** JavaScript `s.slice(0, end)`: a negative `end` counts from the back. */
  function SliceTo<T>(s: seq<T>, end: int): (r: seq<T>)
    ensures |r| <= |s| && r == s[..|r|]
    ensures end >= 0 ==> |r| == if end < |s| then end else |s|
    ensures end < 0 ==> |r| == if |s| + end > 0 then |s| + end else 0
  {
    if end >= 0 then (if end < |s| then s[..end] else s)
    else if |s| + end > 0 then s[..|s| + end] else []
  }
}
