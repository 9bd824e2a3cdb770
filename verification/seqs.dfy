/** Sequence combinators behind the `filter`, `find` and `map` calls of the source. */
module Seqs {
  import opened Wrappers

  /** `Array.prototype.filter`: the elements satisfying `f`, in their original order. */
  function Filter<T(==,!new)>(s: seq<T>, f: T -> bool): (r: seq<T>)
    ensures |r| <= |s|
    ensures forall x :: x in r <==> x in s && f(x)
  {
    if |s| == 0 then []
    else
      assert s == [s[0]] + s[1..];
      (if f(s[0]) then [s[0]] else []) + Filter(s[1..], f)
  }

  /** Appending one element after a concatenation extends its second part. */
  lemma AppendSnoc<T>(a: seq<T>, b: seq<T>, x: T)
    ensures a + b + [x] == a + (b + [x])
  {
    assert forall i :: 0 <= i < |a| + |b| + 1 ==> (a + b + [x])[i] == (a + (b + [x]))[i];
  }

  /** Filtering keeps every occurrence of an element that passes and none of one that fails. */
  lemma {:induction false} FilterCounts<T(!new)>(s: seq<T>, f: T -> bool)
    ensures forall x :: multiset(Filter(s, f))[x] == if f(x) then multiset(s)[x] else 0
  {
    if |s| > 0 {
      FilterCounts(s[1..], f);
      assert s == [s[0]] + s[1..];
    }
  }

  lemma {:induction false} FilterAppend<T(!new)>(a: seq<T>, b: seq<T>, f: T -> bool)
    ensures Filter(a + b, f) == Filter(a, f) + Filter(b, f)
  {
    if |a| > 0 {
      assert (a + b)[1..] == a[1..] + b;
      FilterAppend(a[1..], b, f);
    } else {
      assert a + b == b;
    }
  }

  lemma {:induction false} FilterKeepsAll<T(!new)>(s: seq<T>, f: T -> bool)
    requires forall i :: 0 <= i < |s| ==> f(s[i])
    ensures Filter(s, f) == s
  {
    if |s| > 0 {
      FilterKeepsAll(s[1..], f);
      assert s == [s[0]] + s[1..];
    }
  }

  lemma FilterKeepsNone<T(!new)>(s: seq<T>, f: T -> bool)
    requires forall i :: 0 <= i < |s| ==> !f(s[i])
    ensures Filter(s, f) == []
  {
  }

  lemma FilterSingleton<T(!new)>(x: T, f: T -> bool)
    ensures Filter([x], f) == if f(x) then [x] else []
  {
    assert [x][1..] == [];
  }

  /** A test and its negation split a sequence into two parts of complementary sizes. */
  lemma {:induction false} FilterSplitsLength<T(!new)>(s: seq<T>, f: T -> bool, h: T -> bool)
    requires forall i :: 0 <= i < |s| ==> h(s[i]) == !f(s[i])
    ensures |Filter(s, f)| + |Filter(s, h)| == |s|
  {
    if |s| > 0 {
      FilterSplitsLength(s[1..], f, h);
      assert forall i :: 0 <= i < |s[1..]| ==> s[1..][i] == s[i + 1];
    }
  }

  /** Filtering drops a single failing element between two runs of passing ones. */
  lemma FilterDropsMiddle<T(!new)>(front: seq<T>, x: T, back: seq<T>, f: T -> bool)
    requires !f(x)
    requires forall q :: 0 <= q < |front| ==> f(front[q])
    requires forall q :: 0 <= q < |back| ==> f(back[q])
    ensures Filter(front + ([x] + back), f) == front + back
  {
    FilterKeepsAll(front, f);
    FilterDropsHead(x, back, f);
    FilterAppend(front, [x] + back, f);
  }

  lemma FilterDropsHead<T(!new)>(x: T, back: seq<T>, f: T -> bool)
    requires !f(x)
    requires forall q :: 0 <= q < |back| ==> f(back[q])
    ensures Filter([x] + back, f) == back
  {
    FilterKeepsAll(back, f);
    assert ([x] + back)[1..] == back;
  }

  /** A test that is the disjoint union of two others filters out the union of what
      they filter out, counted with multiplicity. */
  lemma FilterDisjointUnion<T(!new)>(s: seq<T>, f: T -> bool, g: T -> bool, h: T -> bool)
    requires forall x :: f(x) == (g(x) || h(x))
    requires forall x :: !(g(x) && h(x))
    ensures multiset(Filter(s, f)) == multiset(Filter(s, g)) + multiset(Filter(s, h))
  {
    FilterCounts(s, f);
    FilterCounts(s, g);
    FilterCounts(s, h);
    var a := multiset(Filter(s, f));
    var b := multiset(Filter(s, g)) + multiset(Filter(s, h));
    forall x ensures a[x] == b[x] {
    }
    assert a == b;
  }

  /** Filtering drops a failing element appended after passing ones. */
  lemma FilterDropsLast<T(!new)>(s: seq<T>, x: T, f: T -> bool)
    requires !f(x)
    requires forall q :: 0 <= q < |s| ==> f(s[q])
    ensures Filter(s + [x], f) == s
  {
    FilterKeepsAll(s, f);
    FilterSingleton(x, f);
    FilterAppend(s, [x], f);
    assert s + [] == s;
  }

  /** Filtering out the one element that fails the test is cutting it out. */
  lemma FilterRemovesOne<T(!new)>(s: seq<T>, f: T -> bool, p: nat)
    requires p < |s| && !f(s[p])
    requires forall q :: 0 <= q < |s| && q != p ==> f(s[q])
    ensures Filter(s, f) == s[..p] + s[p + 1..]
  {
    var front, back := s[..p], s[p + 1..];
    assert s == front + ([s[p]] + back);
    forall q | 0 <= q < |front| ensures f(front[q]) {
      assert front[q] == s[q];
    }
    forall q | 0 <= q < |back| ensures f(back[q]) {
      assert back[q] == s[p + 1 + q];
    }
    FilterDropsMiddle(front, s[p], back, f);
  }


  /** Filtering by a weaker predicate first does not change a later, stronger filter. */
  lemma {:induction false} FilterOfFilter<T(!new)>(s: seq<T>, f: T -> bool, h: T -> bool)
    requires forall i :: 0 <= i < |s| ==> h(s[i]) ==> f(s[i])
    ensures Filter(Filter(s, f), h) == Filter(s, h)
  {
    if |s| > 0 {
      FilterOfFilter(s[1..], f, h);
      var head: seq<T> := if f(s[0]) then [s[0]] else [];
      FilterAppend(head, Filter(s[1..], f), h);
      if f(s[0]) {
        assert Filter(head, h) == if h(s[0]) then [s[0]] else [] by {
          assert head[1..] == [];
        }
      }
    }
  }

  /** `Array.prototype.find` / `findIndex`: the position of the first element satisfying `f`. */
  function FindIndex<T>(s: seq<T>, f: T -> bool): (r: Option<nat>)
    ensures r.Some? ==> r.value < |s| && f(s[r.value])
    ensures r.Some? ==> forall j :: 0 <= j < r.value ==> !f(s[j])
    ensures r.None? <==> forall j :: 0 <= j < |s| ==> !f(s[j])
  {
    if |s| == 0 then None
    else if f(s[0]) then Some(0)
    else
      match FindIndex(s[1..], f)
      case None =>
        assert forall j :: 1 <= j < |s| ==> s[j] == s[1..][j - 1];
        None
      case Some(p) =>
        assert forall j :: 1 <= j < p + 1 ==> s[j] == s[1..][j - 1];
        Some(p + 1)
  }

  /** No two elements share a key. */
  predicate DistinctBy<T, K(==)>(s: seq<T>, key: T -> K) {
    forall i, j :: 0 <= i < j < |s| ==> key(s[i]) != key(s[j])
  }

  lemma {:induction false} FilterKeepsDistinct<T(!new), K>(s: seq<T>, key: T -> K, f: T -> bool)
    requires DistinctBy(s, key)
    ensures DistinctBy(Filter(s, f), key)
  {
    if |s| > 0 {
      var rest := Filter(s[1..], f);
      assert DistinctBy(s[1..], key) by {
        forall i, j | 0 <= i < j < |s[1..]| ensures key(s[1..][i]) != key(s[1..][j]) {
          assert s[1..][i] == s[i + 1] && s[1..][j] == s[j + 1];
        }
      }
      FilterKeepsDistinct(s[1..], key, f);
      if f(s[0]) {
        var r := [s[0]] + rest;
        forall i, j | 0 <= i < j < |r| ensures key(r[i]) != key(r[j]) {
          if i == 0 {
            assert r[j] in s[1..];
            var m :| 0 <= m < |s[1..]| && s[1..][m] == r[j];
            assert s[m + 1] == r[j];
          } else {
            assert r[i] == rest[i - 1] && r[j] == rest[j - 1];
          }
        }
      }
    }
  }
}
