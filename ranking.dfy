/** Sequence operations that both services use to build their result lists:
    keeping the elements that satisfy a test, and a stable sort into
    non-increasing order of a key. Python's `list.sort(key=..., reverse=True)`
    is such a sort; SQLite's `ORDER BY ... DESC` is one admissible order. */
module Ranking {

  /** The elements of `s` that satisfy `p`, in their order in `s`. */
  function Filter<T>(s: seq<T>, p: T -> bool): (r: seq<T>)
    ensures |r| <= |s|
    ensures forall i :: 0 <= i < |r| ==> r[i] in s && p(r[i])
    ensures forall i :: 0 <= i < |s| && p(s[i]) ==> s[i] in r
  {
    if s == [] then [] else (if p(s[0]) then [s[0]] else []) + Filter(s[1..], p)
  }

  /** The elements of a filtered sequence are the satisfying elements. */
  lemma FilterMembers<T>(s: seq<T>, p: T -> bool)
    ensures forall x :: x in Filter(s, p) <==> x in s && p(x)
  {
  }

  /** Filtering keeps every satisfying element with its multiplicity. */
  lemma {:induction false} FilterMultiset<T>(s: seq<T>, p: T -> bool)
    ensures forall x :: multiset(Filter(s, p))[x] == if p(x) then multiset(s)[x] else 0
  {
    if s != [] {
      FilterMultiset(s[1..], p);
      assert s == [s[0]] + s[1..];
    }
  }

  /** Filtering is a homomorphism of concatenation: it never moves an element
      across another. */
  lemma {:induction false} FilterAppend<T>(s: seq<T>, t: seq<T>, p: T -> bool)
    ensures Filter(s + t, p) == Filter(s, p) + Filter(t, p)
  {
    if s == [] {
      assert s + t == t;
    } else {
      assert (s + t)[0] == s[0] && (s + t)[1..] == s[1..] + t;
      FilterAppend(s[1..], t, p);
    }
  }

  /** Two tests that agree on every element select the same elements. */
  lemma {:induction false} FilterSameTest<T>(s: seq<T>, p: T -> bool, q: T -> bool)
    requires forall x :: p(x) == q(x)
    ensures Filter(s, p) == Filter(s, q)
  {
    if s != [] {
      FilterSameTest(s[1..], p, q);
    }
  }

  /** Filtering twice is filtering once by the conjunction of the tests. */
  lemma {:induction false} FilterTwice<T>(s: seq<T>, p: T -> bool, q: T -> bool, both: T -> bool)
    requires forall x :: both(x) == (p(x) && q(x))
    ensures Filter(Filter(s, p), q) == Filter(s, both)
  {
    if s != [] {
      FilterTwice(s[1..], p, q, both);
      var rest := Filter(s[1..], p);
      if p(s[0]) {
        assert Filter(s, p) == [s[0]] + rest;
        assert ([s[0]] + rest)[1..] == rest;
      } else {
        assert Filter(s, p) == rest;
      }
    }
  }

  /** No element passes, nothing is kept. */
  lemma {:induction false} FilterNone<T>(s: seq<T>, p: T -> bool)
    requires forall i :: 0 <= i < |s| ==> !p(s[i])
    ensures Filter(s, p) == []
  {
    if s != [] {
      FilterNone(s[1..], p);
    }
  }

  /** The elements of a prefix, filtered, are a prefix of the filtered whole. */
  lemma {:induction false} FilterPrefix<T>(s: seq<T>, n: nat, p: T -> bool)
    requires n <= |s|
    ensures Filter(s[..n], p) <= Filter(s, p)
  {
    assert s == s[..n] + s[n..];
    FilterAppend(s[..n], s[n..], p);
  }

  ghost predicate SortedDesc<T>(s: seq<T>, key: T -> real) {
    forall i, j :: 0 <= i < j < |s| ==> key(s[i]) >= key(s[j])
  }

  /** No element of `s` has a key above `bound`. */
  ghost predicate KeysAtMost<T>(s: seq<T>, key: T -> real, bound: real) {
    forall i :: 0 <= i < |s| ==> key(s[i]) <= bound
  }

  lemma {:induction false} SortedTail<T>(s: seq<T>, key: T -> real)
    requires s != [] && SortedDesc(s, key)
    ensures SortedDesc(s[1..], key) && KeysAtMost(s[1..], key, key(s[0]))
  {
    forall i | 0 <= i < |s| - 1 ensures key(s[1..][i]) <= key(s[0]) {
      assert s[1..][i] == s[i + 1];
    }
  }

  lemma {:induction false} SortedCons<T>(a: T, t: seq<T>, key: T -> real)
    requires SortedDesc(t, key) && KeysAtMost(t, key, key(a))
    ensures SortedDesc([a] + t, key)
  {
    var s := [a] + t;
    forall i, j | 0 <= i < j < |s| ensures key(s[i]) >= key(s[j]) {
      assert s[j] == t[j - 1];
      if i > 0 {
        assert s[i] == t[i - 1];
      }
    }
  }

  /** Filtering keeps a bound on the keys. */
  lemma {:induction false} FilterKeysAtMost<T>(s: seq<T>, key: T -> real, bound: real, p: T -> bool)
    requires KeysAtMost(s, key, bound)
    ensures KeysAtMost(Filter(s, p), key, bound)
  {
    var r := Filter(s, p);
    forall i | 0 <= i < |r| ensures key(r[i]) <= bound {
      assert r[i] in s;
    }
  }

  /** Filtering keeps a sequence sorted. */
  lemma {:induction false} FilterSorted<T>(s: seq<T>, key: T -> real, p: T -> bool)
    requires SortedDesc(s, key)
    ensures SortedDesc(Filter(s, p), key)
  {
    if s != [] {
      SortedTail(s, key);
      FilterSorted(s[1..], key, p);
      FilterKeysAtMost(s[1..], key, key(s[0]), p);
      if p(s[0]) {
        SortedCons(s[0], Filter(s[1..], p), key);
      }
    }
  }

  /** Cutting a sorted sequence keeps the front sorted, and nothing cut off
      has a larger key than anything kept. */
  lemma TopOfSorted<T>(s: seq<T>, n: nat, key: T -> real)
    requires SortedDesc(s, key) && n <= |s|
    ensures SortedDesc(s[..n], key)
    ensures forall x :: x in s && x !in s[..n] ==>
              n < |s| && forall i :: 0 <= i < n ==> key(s[..n][i]) >= key(x)
  {
    var top := s[..n];
    forall x | x in s && x !in top
      ensures n < |s| && forall i :: 0 <= i < n ==> key(top[i]) >= key(x)
    {
      var j :| 0 <= j < |s| && s[j] == x;
      assert forall k :: 0 <= k < n ==> top[k] == s[k];
      assert j >= n;
    }
  }

  /** Puts `x` in front of the first element whose key is not larger than its
      own, so that `x` stays ahead of the elements with an equal key. */
  function InsertDesc<T>(x: T, s: seq<T>, key: T -> real): (r: seq<T>)
    ensures |r| == |s| + 1
  {
    if s == [] || key(x) >= key(s[0]) then [x] + s else [s[0]] + InsertDesc(x, s[1..], key)
  }

  lemma {:induction false} InsertDescKeysAtMost<T>(x: T, s: seq<T>, key: T -> real, bound: real)
    requires KeysAtMost(s, key, bound) && key(x) <= bound
    ensures KeysAtMost(InsertDesc(x, s, key), key, bound)
  {
    if s != [] && key(x) < key(s[0]) {
      assert KeysAtMost(s[1..], key, bound) by {
        forall i | 0 <= i < |s| - 1 ensures key(s[1..][i]) <= bound {
          assert s[1..][i] == s[i + 1];
        }
      }
      InsertDescKeysAtMost(x, s[1..], key, bound);
    }
  }

  /** Inserting into a sorted sequence keeps it sorted. */
  lemma {:induction false} InsertDescSorted<T>(x: T, s: seq<T>, key: T -> real)
    requires SortedDesc(s, key)
    ensures SortedDesc(InsertDesc(x, s, key), key)
  {
    if s == [] || key(x) >= key(s[0]) {
      if s != [] {
        SortedTail(s, key);
        assert KeysAtMost(s, key, key(x)) by {
          forall i | 1 <= i < |s| ensures key(s[i]) <= key(x) {
            assert s[1..][i - 1] == s[i];
          }
        }
      }
      SortedCons(x, s, key);
    } else {
      SortedTail(s, key);
      InsertDescSorted(x, s[1..], key);
      InsertDescKeysAtMost(x, s[1..], key, key(s[0]));
      SortedCons(s[0], InsertDesc(x, s[1..], key), key);
    }
  }

  /** Inserting adds exactly `x` to the elements. */
  lemma {:induction false} InsertDescMultiset<T>(x: T, s: seq<T>, key: T -> real)
    ensures multiset(InsertDesc(x, s, key)) == multiset(s) + multiset{x}
  {
    if s != [] && key(x) < key(s[0]) {
      InsertDescMultiset(x, s[1..], key);
      assert s == [s[0]] + s[1..];
    }
  }

  /** A stable sort into non-increasing order of `key`: insertion sort from the
      back, each element placed ahead of the equal keys that followed it. */
  function SortDesc<T>(s: seq<T>, key: T -> real): (r: seq<T>)
    ensures SortedDesc(r, key)
    ensures multiset(r) == multiset(s)
    ensures |r| == |s|
  {
    if s == [] then []
    else
      var rest := SortDesc(s[1..], key);
      InsertDescSorted(s[0], rest, key);
      InsertDescMultiset(s[0], rest, key);
      assert s == [s[0]] + s[1..];
      InsertDesc(s[0], rest, key)
  }

  /** Sorting neither adds nor drops an element. */
  lemma SortDescMembers<T>(s: seq<T>, key: T -> real)
    ensures forall x :: x in SortDesc(s, key) <==> x in s
  {
    var r := SortDesc(s, key);
    forall x ensures x in r <==> x in s {
      assert x in r <==> x in multiset(r);
      assert x in s <==> x in multiset(s);
    }
  }

  lemma {:induction false} FilterCons<T>(a: T, t: seq<T>, p: T -> bool)
    ensures Filter([a] + t, p) == (if p(a) then [a] else []) + Filter(t, p)
  {
    assert ([a] + t)[0] == a && ([a] + t)[1..] == t;
  }

  /** Inserting an element whose key tops a sorted sequence puts it in front. */
  lemma {:induction false} InsertDescInFront<T>(x: T, s: seq<T>, key: T -> real)
    requires SortedDesc(s, key) && (s == [] || key(x) >= key(s[0]))
    ensures InsertDesc(x, s, key) == [x] + s
  {
  }

  /** Filtering commutes with inserting into a sorted sequence. */
  lemma {:induction false} FilterInsertDesc<T>(x: T, s: seq<T>, key: T -> real, p: T -> bool)
    requires SortedDesc(s, key)
    ensures Filter(InsertDesc(x, s, key), p) ==
            if p(x) then InsertDesc(x, Filter(s, p), key) else Filter(s, p)
  {
    if s == [] || key(x) >= key(s[0]) {
      FilterInsertInFront(x, s, key, p);
    } else {
      SortedTail(s, key);
      FilterInsertDesc(x, s[1..], key, p);
      FilterInsertBehind(x, s, key, p);
    }
  }

  lemma {:induction false} FilterInsertInFront<T>(x: T, s: seq<T>, key: T -> real, p: T -> bool)
    requires SortedDesc(s, key) && (s == [] || key(x) >= key(s[0]))
    ensures Filter(InsertDesc(x, s, key), p) ==
            if p(x) then InsertDesc(x, Filter(s, p), key) else Filter(s, p)
  {
    var fs := Filter(s, p);
    FilterCons(x, s, p);
    if p(x) {
      FilterSorted(s, key, p);
      if fs != [] {
        assert fs[0] in s;
      }
      InsertDescInFront(x, fs, key);
    }
  }

  lemma {:induction false} FilterInsertBehind<T>(x: T, s: seq<T>, key: T -> real, p: T -> bool)
    requires s != [] && key(x) < key(s[0])
    requires Filter(InsertDesc(x, s[1..], key), p) ==
             if p(x) then InsertDesc(x, Filter(s[1..], p), key) else Filter(s[1..], p)
    ensures Filter(InsertDesc(x, s, key), p) ==
            if p(x) then InsertDesc(x, Filter(s, p), key) else Filter(s, p)
  {
    var rest := InsertDesc(x, s[1..], key);
    var fs1 := Filter(s[1..], p);
    assert InsertDesc(x, s, key) == [s[0]] + rest;
    FilterCons(s[0], rest, p);
    assert Filter(s, p) == (if p(s[0]) then [s[0]] else []) + fs1;
    if p(s[0]) && p(x) {
      var fs := [s[0]] + fs1;
      assert fs[0] == s[0] && fs[1..] == fs1;
      assert InsertDesc(x, fs, key) == [s[0]] + InsertDesc(x, fs1, key);
    } else if !p(s[0]) {
      assert Filter(s, p) == fs1;
    }
  }

  /** Filtering commutes with the stable sort: the elements of the sorted
      sequence that pass a test come in the order the sort gives the passing
      elements alone. */
  lemma {:induction false} FilterSortDesc<T>(s: seq<T>, key: T -> real, p: T -> bool)
    ensures Filter(SortDesc(s, key), p) == SortDesc(Filter(s, p), key)
  {
    if s != [] {
      var sorted1 := SortDesc(s[1..], key);
      var f1 := Filter(s[1..], p);
      FilterSortDesc(s[1..], key, p);
      FilterInsertDesc(s[0], sorted1, key, p);
      assert SortDesc(s, key) == InsertDesc(s[0], sorted1, key);
      assert Filter(s, p) == (if p(s[0]) then [s[0]] else []) + f1;
      if p(s[0]) {
        var g := [s[0]] + f1;
        assert g[0] == s[0] && g[1..] == f1;
        assert SortDesc(g, key) == InsertDesc(s[0], SortDesc(f1, key), key);
      } else {
        assert Filter(s, p) == f1;
      }
    }
  }

  /** The sort leaves an already sorted sequence as it is. */
  lemma {:induction false} SortDescOfSorted<T>(s: seq<T>, key: T -> real)
    requires SortedDesc(s, key)
    ensures SortDesc(s, key) == s
  {
    if s != [] {
      SortDescOfSorted(s[1..], key);
      assert s == [s[0]] + s[1..];
    }
  }

  /** Stability: the elements that share a key keep their original relative
      order. */
  lemma {:induction false} SortDescIsStable<T>(s: seq<T>, key: T -> real, k: real, same: T -> bool)
    requires forall x :: same(x) <==> key(x) == k
    ensures Filter(SortDesc(s, key), same) == Filter(s, same)
  {
    FilterSortDesc(s, key, same);
    SortDescOfSorted(Filter(s, same), key);
  }

}
