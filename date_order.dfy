/**
 * Ordering on optional dates and the stable sort Python's list.sort performs with a
 * date key. A missing date stands for datetime.min: it comes before every date.
 * Dates are timestamps (integers); datetime arithmetic is not part of this model.
 */
module DateOrder {
  import opened Opt

  /** a <= b, with None the smallest. */
  predicate DateLe(a: Option<int>, b: Option<int>) {
    a.None? || (b.Some? && a.value <= b.value)
  }

  /** In an ascending sort a may stand before b; in a descending one (reverse=True), b before a. */
  predicate Precedes(a: Option<int>, b: Option<int>, desc: bool) {
    if desc then DateLe(b, a) else DateLe(a, b)
  }

  lemma PrecedesTotal(a: Option<int>, b: Option<int>, desc: bool)
    ensures Precedes(a, b, desc) || Precedes(b, a, desc)
  {
  }

  lemma PrecedesTransitive(a: Option<int>, b: Option<int>, c: Option<int>, desc: bool)
    requires Precedes(a, b, desc) && Precedes(b, c, desc)
    ensures Precedes(a, c, desc)
  {
  }

  predicate SortedBy<T>(s: seq<T>, key: T -> Option<int>, desc: bool) {
    forall i, j :: 0 <= i < j < |s| ==> Precedes(key(s[i]), key(s[j]), desc)
  }

  /** x placed after every element that may precede it: the step of a stable insertion sort. */
  function Insert<T>(s: seq<T>, x: T, key: T -> Option<int>, desc: bool): (r: seq<T>)
    ensures |r| == |s| + 1
    decreases |s|
  {
    if s == [] then [x]
    else if Precedes(key(s[|s| - 1]), key(x), desc) then s + [x]
    else Insert(s[..|s| - 1], x, key, desc) + [s[|s| - 1]]
  }

  /** list.sort(key=key, reverse=desc): a stable sort. */
  function Sort<T>(xs: seq<T>, key: T -> Option<int>, desc: bool): (r: seq<T>)
    ensures |r| == |xs|
    decreases |xs|
  {
    if xs == [] then [] else Insert(Sort(xs[..|xs| - 1], key, desc), xs[|xs| - 1], key, desc)
  }

  lemma {:induction false} InsertPermutes<T>(s: seq<T>, x: T, key: T -> Option<int>, desc: bool)
    ensures multiset(Insert(s, x, key, desc)) == multiset(s) + multiset{x}
    decreases |s|
  {
    if s != [] && !Precedes(key(s[|s| - 1]), key(x), desc) {
      var init, last := s[..|s| - 1], s[|s| - 1];
      InsertPermutes(init, x, key, desc);
      assert s == init + [last];
    }
  }

  lemma {:induction false} InsertSorted<T>(s: seq<T>, x: T, key: T -> Option<int>, desc: bool)
    requires SortedBy(s, key, desc)
    ensures SortedBy(Insert(s, x, key, desc), key, desc)
    decreases |s|
  {
    if s == [] {
    } else if Precedes(key(s[|s| - 1]), key(x), desc) {
      var r := s + [x];
      forall i, j | 0 <= i < j < |r| ensures Precedes(key(r[i]), key(r[j]), desc) {
        if j == |s| && i < |s| - 1 {
          PrecedesTransitive(key(s[i]), key(s[|s| - 1]), key(x), desc);
        }
      }
    } else {
      var init, last := s[..|s| - 1], s[|s| - 1];
      InsertSorted(init, x, key, desc);
      InsertPermutes(init, x, key, desc);
      var ins := Insert(init, x, key, desc);
      PrecedesTotal(key(last), key(x), desc);
      forall i | 0 <= i < |ins| ensures Precedes(key(ins[i]), key(last), desc) {
        assert ins[i] in multiset(ins);
        if ins[i] != x {
          assert ins[i] in multiset(init);
          var k :| 0 <= k < |init| && init[k] == ins[i];
          assert s[k] == init[k];
        }
      }
      var r := ins + [last];
      forall i, j | 0 <= i < j < |r| ensures Precedes(key(r[i]), key(r[j]), desc) {
        if j < |ins| {
          assert r[i] == ins[i] && r[j] == ins[j];
        }
      }
    }
  }

  lemma {:induction false} SortPermutes<T>(xs: seq<T>, key: T -> Option<int>, desc: bool)
    ensures multiset(Sort(xs, key, desc)) == multiset(xs)
    decreases |xs|
  {
    if xs != [] {
      var init := xs[..|xs| - 1];
      SortPermutes(init, key, desc);
      InsertPermutes(Sort(init, key, desc), xs[|xs| - 1], key, desc);
      assert xs == init + [xs[|xs| - 1]];
    }
  }

  lemma {:induction false} SortSorted<T>(xs: seq<T>, key: T -> Option<int>, desc: bool)
    ensures SortedBy(Sort(xs, key, desc), key, desc)
    decreases |xs|
  {
    if xs != [] {
      SortSorted(xs[..|xs| - 1], key, desc);
      InsertSorted(Sort(xs[..|xs| - 1], key, desc), xs[|xs| - 1], key, desc);
    }
  }

  /** Sorting a sorted list changes nothing. */
  lemma {:induction false} SortOfSorted<T>(xs: seq<T>, key: T -> Option<int>, desc: bool)
    requires SortedBy(xs, key, desc)
    ensures Sort(xs, key, desc) == xs
    decreases |xs|
  {
    if xs != [] {
      var init := xs[..|xs| - 1];
      assert SortedBy(init, key, desc);
      SortOfSorted(init, key, desc);
      if |init| > 0 {
        assert Precedes(key(init[|init| - 1]), key(xs[|xs| - 1]), desc);
      }
      assert init + [xs[|xs| - 1]] == xs;
    }
  }

  /** Sorting a sorted list with one element appended inserts that element. */
  lemma SortAppended<T>(xs: seq<T>, x: T, key: T -> Option<int>, desc: bool)
    ensures Sort(Sort(xs, key, desc) + [x], key, desc) == Sort(xs + [x], key, desc)
  {
    var s := Sort(xs, key, desc);
    SortSorted(xs, key, desc);
    SortOfSorted(s, key, desc);
    assert (s + [x])[..|s|] == s;
    assert (xs + [x])[..|xs|] == xs;
  }

  /** The elements whose key is d, in order. */
  function WithKey<T>(s: seq<T>, key: T -> Option<int>, d: Option<int>): seq<T>
    decreases |s|
  {
    if s == [] then []
    else WithKey(s[..|s| - 1], key, d) + (if key(s[|s| - 1]) == d then [s[|s| - 1]] else [])
  }

  lemma WithKeyAppend<T>(s: seq<T>, x: T, key: T -> Option<int>, d: Option<int>)
    ensures WithKey(s + [x], key, d) == WithKey(s, key, d) + (if key(x) == d then [x] else [])
  {
    assert (s + [x])[..|s|] == s;
  }

  lemma {:induction false} InsertStable<T>(s: seq<T>, x: T, key: T -> Option<int>, desc: bool, d: Option<int>)
    ensures WithKey(Insert(s, x, key, desc), key, d) == WithKey(s, key, d) + (if key(x) == d then [x] else [])
    decreases |s|
  {
    if s == [] {
      WithKeyAppend([], x, key, d);
      assert [] + [x] == [x];
    } else if Precedes(key(s[|s| - 1]), key(x), desc) {
      WithKeyAppend(s, x, key, d);
    } else {
      var init, last := s[..|s| - 1], s[|s| - 1];
      InsertStable(init, x, key, desc, d);
      WithKeyAppend(Insert(init, x, key, desc), last, key, d);
      WithKeyAppend(init, last, key, d);
      assert init + [last] == s;
      // last comes strictly after x, so the two never share the key d.
      assert !(key(x) == d && key(last) == d);
    }
  }

  /** Elements with equal keys keep their relative order. */
  lemma {:induction false} SortStable<T>(xs: seq<T>, key: T -> Option<int>, desc: bool, d: Option<int>)
    ensures WithKey(Sort(xs, key, desc), key, d) == WithKey(xs, key, d)
    decreases |xs|
  {
    if xs != [] {
      var init := xs[..|xs| - 1];
      SortStable(init, key, desc, d);
      InsertStable(Sort(init, key, desc), xs[|xs| - 1], key, desc, d);
    }
  }

  /** The larger of two dates under DateLe (the second when they are equal). */
  function MaxDate(a: Option<int>, b: Option<int>): (r: Option<int>)
    ensures DateLe(a, r) && DateLe(b, r) && (r == a || r == b)
  {
    if DateLe(a, b) then b else a
  }

  /** An ascending sort ends with an element with the largest key. */
  lemma {:induction false} InsertLast<T>(s: seq<T>, x: T, key: T -> Option<int>)
    requires s != []
    ensures var r := Insert(s, x, key, false); key(r[|r| - 1]) == MaxDate(key(s[|s| - 1]), key(x))
    decreases |s|
  {
  }

  /** A non-empty sequence is its front and its last element. */
  lemma SplitLast<T>(s: seq<T>)
    requires s != []
    ensures s == s[..|s| - 1] + [s[|s| - 1]]
  {
  }

  lemma PrefixOfAppend<T>(s: seq<T>, x: T)
    ensures (s + [x])[..|s|] == s
  {
  }

  /** [f(x) for x in xs] */
  function Map<T, U>(xs: seq<T>, f: T -> U): (r: seq<U>)
    ensures |r| == |xs| && forall i :: 0 <= i < |xs| ==> r[i] == f(xs[i])
    decreases |xs|
  {
    if xs == [] then [] else Map(xs[..|xs| - 1], f) + [f(xs[|xs| - 1])]
  }

  lemma {:induction false} InsertMap<T, U>(s: seq<T>, x: T, f: T -> U, k1: T -> Option<int>, k2: U -> Option<int>, desc: bool)
    requires forall y :: y in s ==> k1(y) == k2(f(y))
    requires k1(x) == k2(f(x))
    ensures Map(Insert(s, x, k1, desc), f) == Insert(Map(s, f), f(x), k2, desc)
    decreases |s|
  {
    if s != [] && !Precedes(k1(s[|s| - 1]), k1(x), desc) {
      var init := s[..|s| - 1];
      assert forall y :: y in init ==> y in s;
      InsertMap(init, x, f, k1, k2, desc);
      assert Map(s, f)[..|s| - 1] == Map(init, f);
    }
  }

  /** Sorting commutes with a map that carries the key along. */
  lemma {:induction false} SortMap<T, U>(xs: seq<T>, f: T -> U, k1: T -> Option<int>, k2: U -> Option<int>, desc: bool)
    requires forall y :: y in xs ==> k1(y) == k2(f(y))
    ensures Map(Sort(xs, k1, desc), f) == Sort(Map(xs, f), k2, desc)
    decreases |xs|
  {
    if xs != [] {
      var init := xs[..|xs| - 1];
      var sorted := Sort(init, k1, desc);
      assert forall y :: y in init ==> y in xs;
      SortMap(init, f, k1, k2, desc);
      SortPermutes(init, k1, desc);
      forall y | y in sorted ensures k1(y) == k2(f(y)) {
        assert y in multiset(sorted);
      }
      InsertMap(sorted, xs[|xs| - 1], f, k1, k2, desc);
      assert Map(xs, f)[..|xs| - 1] == Map(init, f);
    }
  }
}
