/**
 * Python's ordering of str values (code point by code point, a proper prefix first) and
 * the sort list.sort() performs with it.
 */
module LexOrder {
  /** a <= b on str. */
  predicate LexLe(a: string, b: string)
    decreases |a|
  {
    a == [] || (b != [] && (a[0] < b[0] || (a[0] == b[0] && LexLe(a[1..], b[1..]))))
  }

  lemma {:induction false} LexTotal(a: string, b: string)
    ensures LexLe(a, b) || LexLe(b, a)
    decreases |a|
  {
    if a != [] && b != [] && a[0] == b[0] {
      LexTotal(a[1..], b[1..]);
    }
  }

  lemma {:induction false} LexTransitive(a: string, b: string, c: string)
    requires LexLe(a, b) && LexLe(b, c)
    ensures LexLe(a, c)
    decreases |a|
  {
    if a != [] && a[0] == b[0] && b[0] == c[0] {
      LexTransitive(a[1..], b[1..], c[1..]);
    }
  }

  lemma {:induction false} LexAntisymmetric(a: string, b: string)
    requires LexLe(a, b) && LexLe(b, a)
    ensures a == b
    decreases |a|
  {
    if a != [] {
      LexAntisymmetric(a[1..], b[1..]);
      assert a == [a[0]] + a[1..] && b == [b[0]] + b[1..];
    }
  }

  lemma {:induction false} LexReflexive(a: string)
    ensures LexLe(a, a)
    decreases |a|
  {
    if a != [] {
      LexReflexive(a[1..]);
    }
  }

  predicate LexSorted(s: seq<string>) {
    forall i, j :: 0 <= i < j < |s| ==> LexLe(s[i], s[j])
  }

  /** x placed after every element not above it. */
  function InsertLex(s: seq<string>, x: string): (r: seq<string>)
    ensures |r| == |s| + 1
    decreases |s|
  {
    if s == [] then [x]
    else if LexLe(s[|s| - 1], x) then s + [x]
    else InsertLex(s[..|s| - 1], x) + [s[|s| - 1]]
  }

  /** sorted(xs), as list.sort() leaves it. */
  function SortLex(xs: seq<string>): (r: seq<string>)
    ensures |r| == |xs|
    decreases |xs|
  {
    if xs == [] then [] else InsertLex(SortLex(xs[..|xs| - 1]), xs[|xs| - 1])
  }

  lemma {:induction false} InsertLexPermutes(s: seq<string>, x: string)
    ensures multiset(InsertLex(s, x)) == multiset(s) + multiset{x}
    decreases |s|
  {
    if s != [] && !LexLe(s[|s| - 1], x) {
      var init, last := s[..|s| - 1], s[|s| - 1];
      InsertLexPermutes(init, x);
      assert s == init + [last];
    }
  }

  lemma {:induction false} InsertLexSorted(s: seq<string>, x: string)
    requires LexSorted(s)
    ensures LexSorted(InsertLex(s, x))
    decreases |s|
  {
    if s == [] {
    } else if LexLe(s[|s| - 1], x) {
      var r := s + [x];
      forall i, j | 0 <= i < j < |r| ensures LexLe(r[i], r[j]) {
        if j == |s| && i < |s| - 1 {
          LexTransitive(s[i], s[|s| - 1], x);
        }
      }
    } else {
      var init, last := s[..|s| - 1], s[|s| - 1];
      InsertLexSorted(init, x);
      InsertLexPermutes(init, x);
      var ins := InsertLex(init, x);
      LexTotal(last, x);
      forall i | 0 <= i < |ins| ensures LexLe(ins[i], last) {
        assert ins[i] in multiset(ins);
        if ins[i] != x {
          assert ins[i] in multiset(init);
          var k :| 0 <= k < |init| && init[k] == ins[i];
          assert s[k] == init[k];
        }
      }
      var r := ins + [last];
      forall i, j | 0 <= i < j < |r| ensures LexLe(r[i], r[j]) {
        if j < |ins| {
          assert r[i] == ins[i] && r[j] == ins[j];
        }
      }
    }
  }

  /** The sort keeps every element, as often as it occurs. */
  lemma {:induction false} SortLexPermutes(xs: seq<string>)
    ensures multiset(SortLex(xs)) == multiset(xs)
    decreases |xs|
  {
    if xs != [] {
      var init := xs[..|xs| - 1];
      SortLexPermutes(init);
      InsertLexPermutes(SortLex(init), xs[|xs| - 1]);
      assert xs == init + [xs[|xs| - 1]];
    }
  }

  lemma {:induction false} SortLexSorted(xs: seq<string>)
    ensures LexSorted(SortLex(xs))
    decreases |xs|
  {
    if xs != [] {
      SortLexSorted(xs[..|xs| - 1]);
      InsertLexSorted(SortLex(xs[..|xs| - 1]), xs[|xs| - 1]);
    }
  }

  /** A sorted list is determined by its elements: the sort is the only sorted permutation. */
  lemma {:induction false} SortedUnique(a: seq<string>, b: seq<string>)
    requires LexSorted(a) && LexSorted(b) && multiset(a) == multiset(b)
    ensures a == b
    decreases |a|
  {
    assert |a| == |multiset(a)| == |b|;
    if a != [] {
      var n := |a| - 1;
      SameLast(a, b);
      var x := a[n];
      SplitLastLex(a);
      SplitLastLex(b);
      assert multiset(a[..n]) == multiset(a) - multiset{x};
      assert multiset(b[..n]) == multiset(b) - multiset{x};
      SortedPrefix(a);
      SortedPrefix(b);
      SortedUnique(a[..n], b[..n]);
    }
  }

  /** Two sorted lists with the same elements end with the same (largest) one. */
  lemma SameLast(a: seq<string>, b: seq<string>)
    requires LexSorted(a) && LexSorted(b) && multiset(a) == multiset(b) && a != [] && |a| == |b|
    ensures a[|a| - 1] == b[|b| - 1]
  {
    var n := |a| - 1;
    var x, y := a[n], b[n];
    assert LexLe(x, y) by {
      assert x in multiset(b);
      var i :| 0 <= i < |b| && b[i] == x;
      if i < n { assert LexLe(b[i], b[n]); } else { LexReflexive(x); }
    }
    assert LexLe(y, x) by {
      assert y in multiset(a);
      var j :| 0 <= j < |a| && a[j] == y;
      if j < n { assert LexLe(a[j], a[n]); } else { LexReflexive(y); }
    }
    LexAntisymmetric(x, y);
  }

  lemma SortedPrefix(a: seq<string>)
    requires LexSorted(a) && a != []
    ensures LexSorted(a[..|a| - 1])
  {
    var p := a[..|a| - 1];
    forall i, j | 0 <= i < j < |p| ensures LexLe(p[i], p[j]) {
      assert p[i] == a[i] && p[j] == a[j];
    }
  }

  lemma SplitLastLex(s: seq<string>)
    requires s != []
    ensures s == s[..|s| - 1] + [s[|s| - 1]]
    ensures multiset(s) == multiset(s[..|s| - 1]) + multiset{s[|s| - 1]}
  {
    assert s == s[..|s| - 1] + [s[|s| - 1]];
  }
  /** m is below every element of s. */
  predicate IsLeast(m: string, s: set<string>) {
    m in s && forall y :: y in s ==> LexLe(m, y)
  }

  lemma {:induction false} LeastExists(s: set<string>)
    requires s != {}
    ensures exists m :: IsLeast(m, s)
    decreases s
  {
    var x :| x in s;
    if s - {x} == {} {
      LexReflexive(x);
      forall y | y in s ensures LexLe(x, y) {
        assert y !in s - {x};
      }
      assert IsLeast(x, s);
    } else {
      LeastExists(s - {x});
      var m :| IsLeast(m, s - {x});
      LexTotal(x, m);
      if LexLe(x, m) {
        forall y | y in s ensures LexLe(x, y) {
          if y == x { LexReflexive(x); } else { LexTransitive(x, m, y); }
        }
        assert IsLeast(x, s);
      } else {
        assert IsLeast(m, s);
      }
    }
  }

  lemma LeastUnique(s: set<string>)
    ensures forall m, n :: IsLeast(m, s) && IsLeast(n, s) ==> m == n
  {
    forall m, n | IsLeast(m, s) && IsLeast(n, s) ensures m == n {
      LexAntisymmetric(m, n);
    }
  }

  /** sorted(s) for a set of distinct keys, as sorted(d.items()) orders a dict's keys:
      the least key first, then the others sorted. */
  function SortedSet(s: set<string>): seq<string>
    decreases s
  {
    if s == {} then []
    else
      LeastExists(s);
      LeastUnique(s);
      var m :| IsLeast(m, s);
      [m] + SortedSet(s - {m})
  }

  /** The keys sorted: each key of the set once, in ascending order. */
  lemma {:induction false} SortedSetOrders(s: set<string>)
    ensures var r := SortedSet(s);
      |r| == |s| && LexSorted(r) && forall x :: x in r <==> x in s
    decreases s
  {
    if s != {} {
      LeastExists(s);
      LeastUnique(s);
      var m :| IsLeast(m, s);
      var rest := SortedSet(s - {m});
      SortedSetOrders(s - {m});
      var r := [m] + rest;
      assert SortedSet(s) == r;
      forall i, j | 0 <= i < j < |r| ensures LexLe(r[i], r[j]) {
        if i == 0 {
          assert r[j] == rest[j - 1] && rest[j - 1] in rest;
        } else {
          assert r[i] == rest[i - 1] && r[j] == rest[j - 1];
        }
      }
      forall x ensures x in r <==> x in s {
        assert x in r <==> x == m || x in rest;
      }
    }
  }
}
