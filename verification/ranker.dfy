/** Ranking of decoded boxes. The program calls `Array.prototype.sort` with a
    comparator returning `scoreB - scoreA`, so elements are ordered by a real
    key, largest first; section 23.1.3.30 of ECMA-262 (2023 edition) requires
    that sort to be stable, so elements with equal keys keep their order.
    Such a sort has exactly one possible outcome (`StableSortUnique`), and
    insertion sort is used here as that outcome. */
module Ranker {

  /** Non-increasing in the key. */
  predicate SortedDesc<T>(key: T -> real, s: seq<T>) {
    forall i, j :: 0 <= i < j < |s| ==> key(s[i]) >= key(s[j])
  }

  /** The elements whose key is `k`, in their order in `s`. */
  function Filter<T>(key: T -> real, k: real, s: seq<T>): (r: seq<T>)
    ensures |r| <= |s|
    ensures forall x :: x in r ==> x in s && key(x) == k
  {
    if |s| == 0 then []
    else if key(s[0]) == k then [s[0]] + Filter(key, k, s[1..])
    else Filter(key, k, s[1..])
  }

  lemma {:induction false} FilterAppend<T>(key: T -> real, k: real, a: seq<T>, b: seq<T>)
    ensures Filter(key, k, a + b) == Filter(key, k, a) + Filter(key, k, b)
    decreases |a|
  {
    if |a| > 0 {
      FilterAppend(key, k, a[1..], b);
      assert (a + b)[0] == a[0];
      assert (a + b)[1..] == a[1..] + b;
    } else {
      assert a + b == b;
    }
  }

  /** Nothing with key `k` is kept when every key is below `k`. */
  lemma {:induction false} FilterAllBelow<T>(key: T -> real, k: real, s: seq<T>)
    requires forall i :: 0 <= i < |s| ==> key(s[i]) < k
    ensures Filter(key, k, s) == []
    decreases |s|
  {
    if |s| > 0 {
      FilterAllBelow(key, k, s[1..]);
    }
  }

  /** An element of `s` shows up in the filter of its own key. */
  lemma {:induction false} FilterHasMember<T>(key: T -> real, s: seq<T>, i: nat)
    requires i < |s|
    ensures s[i] in Filter(key, key(s[i]), s)
    decreases i
  {
    if i > 0 {
      FilterHasMember(key, s[1..], i - 1);
    }
  }

  /** Insert `x` after every element whose key is at least `key(x)`. */
  function Insert<T>(key: T -> real, x: T, s: seq<T>): (r: seq<T>)
    ensures |r| == |s| + 1
    ensures multiset(r) == multiset(s) + multiset{x}
  {
    if |s| == 0 then [x]
    else if key(s[0]) >= key(x) then
      assert s == [s[0]] + s[1..];
      [s[0]] + Insert(key, x, s[1..])
    else [x] + s
  }

  /** Inserting into a sorted list keeps it sorted. */
  lemma {:induction false} InsertSorted<T>(key: T -> real, x: T, s: seq<T>)
    requires SortedDesc(key, s)
    ensures SortedDesc(key, Insert(key, x, s))
    decreases |s|
  {
    if |s| > 0 && key(s[0]) >= key(x) {
      InsertSorted(key, x, s[1..]);
      var r := Insert(key, x, s);
      assert r == [s[0]] + Insert(key, x, s[1..]);
      forall j | 0 < j < |r|
        ensures key(r[0]) >= key(r[j])
      {
        assert r[j] in multiset(Insert(key, x, s[1..]));
        assert r[j] == x || r[j] in s[1..];
      }
    }
  }

  /** Inserting into a sorted list adds `x` at the end of its key group. */
  lemma {:induction false} InsertFilter<T>(key: T -> real, x: T, s: seq<T>, k: real)
    requires SortedDesc(key, s)
    ensures Filter(key, k, Insert(key, x, s)) ==
      Filter(key, k, s) + (if key(x) == k then [x] else [])
    decreases |s|
  {
    var last := if key(x) == k then [x] else [];
    FilterSingle(key, k, x);
    if |s| == 0 {
      assert Filter(key, k, s) + last == last;
    } else {
      var head := s[0];
      var rest := s[1..];
      assert s == [head] + rest;
      if key(head) >= key(x) {
        assert SortedDesc(key, rest) by {
          SortedTail(key, s);
        }
        calc {
          Filter(key, k, Insert(key, x, s));
          Filter(key, k, [head] + Insert(key, x, rest));
          { FilterAppend(key, k, [head], Insert(key, x, rest)); }
          Filter(key, k, [head]) + Filter(key, k, Insert(key, x, rest));
          { InsertFilter(key, x, rest, k); }
          Filter(key, k, [head]) + (Filter(key, k, rest) + last);
          { Assoc(Filter(key, k, [head]), Filter(key, k, rest), last); }
          (Filter(key, k, [head]) + Filter(key, k, rest)) + last;
          { FilterAppend(key, k, [head], rest); }
          Filter(key, k, s) + last;
        }
      } else {
        assert Insert(key, x, s) == [x] + s;
        FilterAppend(key, k, [x], s);
        if key(x) == k {
          assert forall i :: 0 <= i < |s| ==> key(s[i]) < k by {
            forall i | 0 <= i < |s|
              ensures key(s[i]) < k
            {
              assert key(s[i]) <= key(s[0]);
            }
          }
          FilterAllBelow(key, k, s);
          assert Filter(key, k, [x]) + Filter(key, k, s) == [x];
          assert Filter(key, k, s) + last == [x];
        } else {
          assert Filter(key, k, [x]) + Filter(key, k, s) == Filter(key, k, s);
          assert Filter(key, k, s) + last == Filter(key, k, s);
        }
      }
    }
  }

  lemma Assoc<T>(a: seq<T>, b: seq<T>, c: seq<T>)
    ensures a + (b + c) == (a + b) + c
  {
  }

  /** The filter of a single element. */
  lemma FilterSingle<T>(key: T -> real, k: real, x: T)
    ensures Filter(key, k, [x]) == if key(x) == k then [x] else []
  {
    assert [x][1..] == [];
  }

  /** The tail of a sorted list is sorted. */
  lemma SortedTail<T>(key: T -> real, s: seq<T>)
    requires SortedDesc(key, s) && |s| > 0
    ensures SortedDesc(key, s[1..])
  {
    forall i, j | 0 <= i < j < |s| - 1
      ensures key(s[1..][i]) >= key(s[1..][j])
    {
      assert s[1..][i] == s[i + 1] && s[1..][j] == s[j + 1];
    }
  }

  /** The stable sort of `s`: each element inserted in arrival order. */
  function Sort<T>(key: T -> real, s: seq<T>): (r: seq<T>)
    ensures |r| == |s|
    ensures multiset(r) == multiset(s)
    ensures SortedDesc(key, r)
    decreases |s|
  {
    if |s| == 0 then []
    else
      var prefix := s[..|s| - 1];
      assert s == prefix + [s[|s| - 1]];
      InsertSorted(key, s[|s| - 1], Sort(key, prefix));
      Insert(key, s[|s| - 1], Sort(key, prefix))
  }

  /** What a stable sort promises: sorted, and each group of equal keys
      keeps its arrival order. */
  ghost predicate IsStableSortOf<T>(key: T -> real, r: seq<T>, s: seq<T>) {
    SortedDesc(key, r) && forall k :: Filter(key, k, r) == Filter(key, k, s)
  }

  /** `Sort` is a stable sort. */
  lemma {:induction false} SortStable<T>(key: T -> real, s: seq<T>)
    ensures IsStableSortOf(key, Sort(key, s), s)
    decreases |s|
  {
    if |s| > 0 {
      var prefix := s[..|s| - 1];
      var x := s[|s| - 1];
      SortStable(key, prefix);
      assert s == prefix + [x];
      SortStep(key, prefix, x);
      forall k
        ensures Filter(key, k, Sort(key, s)) == Filter(key, k, s)
      {
        InsertFilter(key, x, Sort(key, prefix), k);
        FilterAppend(key, k, prefix, [x]);
        FilterSingle(key, k, x);
      }
    }
  }

  /** A list that is already sorted is left as it is. */
  lemma {:induction false} SortOfSorted<T>(key: T -> real, s: seq<T>)
    requires SortedDesc(key, s)
    ensures Sort(key, s) == s
    decreases |s|
  {
    if |s| > 0 {
      var prefix := s[..|s| - 1];
      var x := s[|s| - 1];
      assert prefix + [x] == s;
      assert SortedDesc(key, prefix) && forall i :: 0 <= i < |prefix| ==> key(prefix[i]) >= key(x) by {
        forall i | 0 <= i < |prefix|
          ensures key(prefix[i]) >= key(x)
        {
          assert prefix[i] == s[i];
        }
      }
      SortOfSorted(key, prefix);
      InsertAtEnd(key, x, prefix);
      SortStep(key, prefix, x);
    }
  }

  /** An element no larger than everything in the list goes at its end. */
  lemma {:induction false} InsertAtEnd<T>(key: T -> real, x: T, s: seq<T>)
    requires forall i :: 0 <= i < |s| ==> key(s[i]) >= key(x)
    ensures Insert(key, x, s) == s + [x]
    decreases |s|
  {
    if |s| > 0 {
      InsertAtEnd(key, x, s[1..]);
      assert [s[0]] + (s[1..] + [x]) == s + [x];
    }
  }

  /** Stable sorting has one outcome: two sorted lists whose key groups
      agree are equal. */
  lemma {:induction false} StableSortUnique<T>(key: T -> real, a: seq<T>, b: seq<T>)
    requires SortedDesc(key, a) && SortedDesc(key, b)
    requires forall k :: Filter(key, k, a) == Filter(key, k, b)
    ensures a == b
    decreases |a| + |b|
  {
    if |a| > 0 {
      FilterHasMember(key, a, 0);
    }
    if |b| > 0 {
      FilterHasMember(key, b, 0);
    }
    if |a| == 0 || |b| == 0 {
      return;
    }
    var ka, kb := key(a[0]), key(b[0]);
    assert a[0] in Filter(key, ka, b);
    assert b[0] in Filter(key, kb, a);
    InSortedIsAtMostHead(key, b, a[0]);
    InSortedIsAtMostHead(key, a, b[0]);
    assert ka == kb;
    assert Filter(key, ka, a)[0] == a[0];
    assert Filter(key, ka, b)[0] == b[0];
    assert a[0] == b[0];
    forall k
      ensures Filter(key, k, a[1..]) == Filter(key, k, b[1..])
    {
      if k == ka {
        assert Filter(key, k, a[1..]) == Filter(key, k, a)[1..];
        assert Filter(key, k, b[1..]) == Filter(key, k, b)[1..];
      } else {
        assert Filter(key, k, a[1..]) == Filter(key, k, a);
        assert Filter(key, k, b[1..]) == Filter(key, k, b);
      }
    }
    StableSortUnique(key, a[1..], b[1..]);
    assert a == [a[0]] + a[1..] && b == [b[0]] + b[1..];
  }

  /** The head of a sorted list carries the largest key. */
  lemma InSortedIsAtMostHead<T>(key: T -> real, s: seq<T>, x: T)
    requires SortedDesc(key, s) && |s| > 0
    ensures x in s ==> key(x) <= key(s[0])
  {
  }

  /** Hence any stable sort of `s` is `Sort(key, s)`. */
  lemma StableSortIsSort<T>(key: T -> real, r: seq<T>, s: seq<T>)
    requires IsStableSortOf(key, r, s)
    ensures r == Sort(key, s)
  {
    SortStable(key, s);
    StableSortUnique(key, r, Sort(key, s));
  }

  /** `s.map(f)`. */
  function Project<T, U>(f: T -> U, s: seq<T>): (r: seq<U>)
    ensures |r| == |s| && forall i :: 0 <= i < |s| ==> r[i] == f(s[i])
  {
    seq(|s|, i requires 0 <= i < |s| => f(s[i]))
  }

  /** Inserting commutes with a projection that keeps the key. */
  lemma {:induction false} InsertProject<T, U>(key1: T -> real, key2: U -> real, f: T -> U, x: T, s: seq<T>)
    requires forall y :: key2(f(y)) == key1(y)
    ensures Insert(key2, f(x), Project(f, s)) == Project(f, Insert(key1, x, s))
    decreases |s|
  {
    if |s| > 0 && key1(s[0]) >= key1(x) {
      InsertProject(key1, key2, f, x, s[1..]);
      assert Project(f, s)[1..] == Project(f, s[1..]);
      assert Project(f, Insert(key1, x, s)) == [f(s[0])] + Project(f, Insert(key1, x, s[1..]));
    } else if |s| > 0 {
      assert Project(f, [x] + s) == [f(x)] + Project(f, s);
    } else {
      assert Project(f, [x]) == [f(x)];
    }
  }

  /** Sorting commutes with a projection that keeps the key: sorting the
      projected records gives the projection of the sorted records. */
  lemma {:induction false} SortProject<T, U>(key1: T -> real, key2: U -> real, f: T -> U, s: seq<T>)
    requires forall y :: key2(f(y)) == key1(y)
    ensures Sort(key2, Project(f, s)) == Project(f, Sort(key1, s))
    decreases |s|
  {
    if |s| > 0 {
      var prefix := s[..|s| - 1];
      SortProject(key1, key2, f, prefix);
      assert Project(f, s)[..|s| - 1] == Project(f, prefix);
      InsertProject(key1, key2, f, s[|s| - 1], Sort(key1, prefix));
    }
  }

  /** Sorting a sorted list with one more element inserts that element. */
  lemma SortSnocSorted<T>(key: T -> real, s: seq<T>, x: T)
    requires SortedDesc(key, s)
    ensures Sort(key, s + [x]) == Insert(key, x, s)
  {
    assert (s + [x])[..|s|] == s;
    SortOfSorted(key, s);
  }

  /** One more element is inserted into the sort of the others. */
  lemma SortStep<T>(key: T -> real, s: seq<T>, x: T)
    ensures Sort(key, s + [x]) == Insert(key, x, Sort(key, s))
  {
    assert (s + [x])[..|s|] == s;
  }

  /** A detection reduced to what the ranking reads: an arrival tag, a
      probability and an area. */
  datatype Scored = Scored(tag: nat, probability: real, area: real)

  function ScoredKey(d: Scored): real {
    d.probability * d.area
  }

  /** Probabilities 0.9, 0.5, 0.9 over areas 100, 200, 100 (keys 90, 100,
      90): the second box ranks first and the equal first and third keep
      their arrival order. */
  lemma RankingExample()
    ensures Sort(ScoredKey, [Scored(0, 0.9, 100.0), Scored(1, 0.5, 200.0), Scored(2, 0.9, 100.0)]) ==
      [Scored(1, 0.5, 200.0), Scored(0, 0.9, 100.0), Scored(2, 0.9, 100.0)]
  {
    var a, b, c := Scored(0, 0.9, 100.0), Scored(1, 0.5, 200.0), Scored(2, 0.9, 100.0);
    ExampleFirstTwo(a, b);
    ExampleThird(a, b, c);
    SortStep(ScoredKey, [a, b], c);
    assert [a, b] + [c] == [a, b, c];
  }

  lemma ExampleFirstTwo(a: Scored, b: Scored)
    requires a == Scored(0, 0.9, 100.0) && b == Scored(1, 0.5, 200.0)
    ensures Sort(ScoredKey, [a, b]) == [b, a]
  {
    assert ScoredKey(a) == 90.0 && ScoredKey(b) == 100.0;
    assert Sort(ScoredKey, [a]) == [a] by {
      SortStep(ScoredKey, [], a);
      assert [] + [a] == [a];
    }
    assert Insert(ScoredKey, b, [a]) == [b, a];
    SortStep(ScoredKey, [a], b);
    assert [a] + [b] == [a, b];
  }

  lemma ExampleThird(a: Scored, b: Scored, c: Scored)
    requires a == Scored(0, 0.9, 100.0) && b == Scored(1, 0.5, 200.0) && c == Scored(2, 0.9, 100.0)
    ensures Insert(ScoredKey, c, [b, a]) == [b, a, c]
  {
    assert Insert(ScoredKey, c, [a]) == [a, c];
    assert Insert(ScoredKey, c, [b, a]) == [b] + Insert(ScoredKey, c, [a]);
  }
}
