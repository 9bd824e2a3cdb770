/** The ordering step of the renumbering: a stable sort by a numeric key. The source
    uses `Array.prototype.sort`, which is stable; this is an insertion sort that places
    an element before the first element whose key is not smaller, so elements with
    equal keys keep their relative order. */
module Sorting {
  import opened Seqs

  predicate SortedBy<T>(s: seq<T>, key: T -> nat) {
    forall i, j :: 0 <= i < j < |s| ==> key(s[i]) <= key(s[j])
  }

  function InsertBy<T(==,!new)>(x: T, s: seq<T>, key: T -> nat): (r: seq<T>)
    ensures |r| == |s| + 1
    ensures multiset(r) == multiset(s) + multiset{x}
    ensures SortedBy(s, key) ==> SortedBy(r, key)
  {
    if |s| == 0 then [x]
    else if key(x) <= key(s[0]) then [x] + s
    else
      var rest := InsertBy(x, s[1..], key);
      assert s == [s[0]] + s[1..];
      assert SortedBy(s, key) ==> SortedBy([s[0]] + rest, key) by {
        if SortedBy(s, key) {
          TailAboveHead(s, key);
          LowerBoundByElements(rest, s[1..], x, key, key(s[0]));
          ConsSorted(s[0], rest, key);
        }
      }
      [s[0]] + rest
  }

  lemma TailAboveHead<T>(s: seq<T>, key: T -> nat)
    requires |s| > 0 && SortedBy(s, key)
    ensures forall i :: 0 <= i < |s[1..]| ==> key(s[0]) <= key(s[1..][i])
  {
    forall i | 0 <= i < |s[1..]| ensures key(s[0]) <= key(s[1..][i]) {
      assert s[1..][i] == s[i + 1];
    }
  }

  /** A bound that holds of every element of `b` and of `x` holds of every element of
      a sequence holding exactly those elements. */
  lemma LowerBoundByElements<T(!new)>(a: seq<T>, b: seq<T>, x: T, key: T -> nat, lo: nat)
    requires multiset(a) == multiset(b) + multiset{x}
    requires lo <= key(x)
    requires forall i :: 0 <= i < |b| ==> lo <= key(b[i])
    ensures forall i :: 0 <= i < |a| ==> lo <= key(a[i])
  {
    forall i | 0 <= i < |a| ensures lo <= key(a[i]) {
      assert a[i] in multiset(a);
      if a[i] != x {
        assert a[i] in multiset(b);
        var m :| 0 <= m < |b| && b[m] == a[i];
      }
    }
  }

  lemma ConsSorted<T>(h: T, rest: seq<T>, key: T -> nat)
    requires SortedBy(rest, key)
    requires forall i :: 0 <= i < |rest| ==> key(h) <= key(rest[i])
    ensures SortedBy([h] + rest, key)
  {
    var r := [h] + rest;
    forall i, j | 0 <= i < j < |r| ensures key(r[i]) <= key(r[j]) {
      assert r[j] == rest[j - 1];
      if i > 0 {
        assert r[i] == rest[i - 1];
      }
    }
  }

  /** A permutation of the input, ordered by key. */
  function SortBy<T(==,!new)>(s: seq<T>, key: T -> nat): (r: seq<T>)
    ensures |r| == |s|
    ensures multiset(r) == multiset(s)
    ensures SortedBy(r, key)
  {
    if |s| == 0 then []
    else
      assert s == [s[0]] + s[1..];
      InsertBy(s[0], SortBy(s[1..], key), key)
  }

  /** Sorting a sequence that is already in order leaves it as it is. */
  lemma {:induction false} SortOfSortedIsIdentity<T(!new)>(s: seq<T>, key: T -> nat)
    requires SortedBy(s, key)
    ensures SortBy(s, key) == s
  {
    if |s| > 0 {
      assert SortedBy(s[1..], key) by {
        forall i, j | 0 <= i < j < |s[1..]| ensures key(s[1..][i]) <= key(s[1..][j]) {
          assert s[1..][i] == s[i + 1] && s[1..][j] == s[j + 1];
        }
      }
      SortOfSortedIsIdentity(s[1..], key);
      assert s == [s[0]] + s[1..];
    }
  }

  /** The elements carrying key `k`. */
  function WithKey<T>(key: T -> nat, k: nat): T -> bool {
    e => key(e) == k
  }

  /** Inserting `x` passes only over elements whose key is smaller than its own, so
      among the elements with any one key, `x` lands first if it has that key, and the
      others keep their order. */
  lemma {:induction false} InsertByKeepsKeyOrder<T(!new)>(x: T, s: seq<T>, key: T -> nat, k: nat)
    ensures Filter(InsertBy(x, s, key), WithKey(key, k))
      == (if key(x) == k then [x] else []) + Filter(s, WithKey(key, k))
  {
    var f := WithKey(key, k);
    var head := if key(x) == k then [x] else [];
    FilterSingleton(x, f);
    if |s| == 0 || key(x) <= key(s[0]) {
      InsertByFront(x, s, key);
      FilterAppend([x], s, f);
    } else {
      var rest := InsertBy(x, s[1..], key);
      InsertByStep(x, s, key);
      InsertByKeepsKeyOrder(x, s[1..], key, k);
      FilterPastOther(s[0], rest, s[1..], head, f);
      assert s == [s[0]] + s[1..];
    }
  }

  lemma InsertByFront<T(!new)>(x: T, s: seq<T>, key: T -> nat)
    requires |s| == 0 || key(x) <= key(s[0])
    ensures InsertBy(x, s, key) == [x] + s
  {
  }

  lemma InsertByStep<T(!new)>(x: T, s: seq<T>, key: T -> nat)
    requires |s| > 0 && key(x) > key(s[0])
    ensures InsertBy(x, s, key) == [s[0]] + InsertBy(x, s[1..], key)
  {
  }

  /** Putting `y` in front of two sequences whose filtered forms differ by a prefix
      `head` keeps that difference, when `y` is filtered out or `head` is empty. */
  lemma FilterPastOther<T(!new)>(y: T, a: seq<T>, b: seq<T>, head: seq<T>, f: T -> bool)
    requires Filter(a, f) == head + Filter(b, f)
    requires head == [] || !f(y)
    ensures Filter([y] + a, f) == head + Filter([y] + b, f)
  {
    FilterSingleton(y, f);
    FilterAppend([y], a, f);
    FilterAppend([y], b, f);
    if f(y) {
      assert head + Filter(b, f) == Filter(b, f);
    } else {
      assert [] + Filter(a, f) == Filter(a, f);
      assert [] + Filter(b, f) == Filter(b, f);
    }
  }

  /** The sort is stable: for every key, the elements with that key appear in the
      result in the order they had in the input. */
  lemma {:induction false} SortByIsStable<T(!new)>(s: seq<T>, key: T -> nat, k: nat)
    ensures Filter(SortBy(s, key), WithKey(key, k)) == Filter(s, WithKey(key, k))
  {
    if |s| > 0 {
      SortByIsStable(s[1..], key, k);
      InsertByKeepsKeyOrder(s[0], SortBy(s[1..], key), key, k);
    }
  }
}
