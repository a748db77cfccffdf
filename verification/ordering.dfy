/** Text ordering and the stable sort used for `ORDER BY` and `sort_values`.
    Account ids and usage dates are text columns, so rows are ordered by
    comparing strings character by character. */
module Ordering {

  /** `a` sorts before or equal to `b` in lexicographic (code point) order. */
  predicate StrLeq(a: string, b: string)
    decreases |a|
  {
    |a| == 0 || (|b| > 0 && (a[0] < b[0] || (a[0] == b[0] && StrLeq(a[1..], b[1..]))))
  }

  lemma {:induction false} StrLeqTotal(a: string, b: string)
    ensures StrLeq(a, b) || StrLeq(b, a)
    decreases |a|
  {
    if |a| > 0 && |b| > 0 && a[0] == b[0] {
      StrLeqTotal(a[1..], b[1..]);
    }
  }

  lemma {:induction false} StrLeqRefl(a: string)
    ensures StrLeq(a, a)
    decreases |a|
  {
    if |a| > 0 {
      StrLeqRefl(a[1..]);
    }
  }

  lemma {:induction false} StrLeqTrans(a: string, b: string, c: string)
    requires StrLeq(a, b) && StrLeq(b, c)
    ensures StrLeq(a, c)
    decreases |a|
  {
    if |a| > 0 && a[0] == b[0] && b[0] == c[0] {
      StrLeqTrans(a[1..], b[1..], c[1..]);
    }
  }

  lemma {:induction false} StrLeqAntisym(a: string, b: string)
    requires StrLeq(a, b) && StrLeq(b, a)
    ensures a == b
    decreases |a|
  {
    if |a| > 0 {
      StrLeqAntisym(a[1..], b[1..]);
      assert a == [a[0]] + a[1..] && b == [b[0]] + b[1..];
    }
  }

  /** Lexicographic order on sort keys (one string per sort column). */
  predicate KeyLeq(x: seq<string>, y: seq<string>)
    decreases |x|
  {
    |x| == 0 || (|y| > 0 && ((StrLeq(x[0], y[0]) && x[0] != y[0]) || (x[0] == y[0] && KeyLeq(x[1..], y[1..]))))
  }

  lemma {:induction false} KeyLeqTotal(x: seq<string>, y: seq<string>)
    ensures KeyLeq(x, y) || KeyLeq(y, x)
    decreases |x|
  {
    if |x| > 0 && |y| > 0 {
      StrLeqTotal(x[0], y[0]);
      if x[0] == y[0] {
        KeyLeqTotal(x[1..], y[1..]);
      }
    }
  }

  lemma {:induction false} KeyLeqTrans(x: seq<string>, y: seq<string>, z: seq<string>)
    requires KeyLeq(x, y) && KeyLeq(y, z)
    ensures KeyLeq(x, z)
    decreases |x|
  {
    if |x| > 0 {
      if x[0] == y[0] && y[0] == z[0] {
        KeyLeqTrans(x[1..], y[1..], z[1..]);
      } else {
        StrLeqRefl(x[0]);
        StrLeqRefl(y[0]);
        StrLeqTrans(x[0], y[0], z[0]);
        if x[0] == z[0] {
          StrLeqAntisym(x[0], y[0]);
        }
      }
    }
  }

  /** Every earlier element's key is at most every later element's key. */
  ghost predicate SortedBy<T>(s: seq<T>, key: T -> seq<string>)
  {
    forall i, j :: 0 <= i < j < |s| ==> KeyLeq(key(s[i]), key(s[j]))
  }

  /** Puts `x` in front of the first element whose key is strictly greater,
      i.e. after every element with an equal key (stable insertion). */
  function Insert<T>(x: T, s: seq<T>, key: T -> seq<string>): (r: seq<T>)
    ensures |r| == |s| + 1
  {
    if s == [] then [x]
    else if !KeyLeq(key(s[0]), key(x)) then [x] + s
    else [s[0]] + Insert(x, s[1..], key)
  }

  /** Stable insertion sort by `key`. */
  function SortBy<T>(s: seq<T>, key: T -> seq<string>): (r: seq<T>)
    ensures |r| == |s|
  {
    if s == [] then [] else Insert(s[|s| - 1], SortBy(s[..|s| - 1], key), key)
  }

  lemma {:induction false} InsertPermutes<T>(x: T, s: seq<T>, key: T -> seq<string>)
    ensures multiset(Insert(x, s, key)) == multiset(s) + multiset{x}
  {
    if s != [] && KeyLeq(key(s[0]), key(x)) {
      InsertPermutes(x, s[1..], key);
      assert s == [s[0]] + s[1..];
    }
  }

  lemma {:induction false} InsertSorted<T>(x: T, s: seq<T>, key: T -> seq<string>)
    requires SortedBy(s, key)
    ensures SortedBy(Insert(x, s, key), key)
  {
    var r := Insert(x, s, key);
    if s == [] {
    } else if !KeyLeq(key(s[0]), key(x)) {
      KeyLeqTotal(key(s[0]), key(x));
      forall i, j | 0 <= i < j < |r| ensures KeyLeq(key(r[i]), key(r[j])) {
        if i == 0 && j > 1 {
          KeyLeqTrans(key(x), key(s[0]), key(s[j - 1]));
        }
      }
    } else {
      var t := Insert(x, s[1..], key);
      InsertSorted(x, s[1..], key);
      InsertPermutes(x, s[1..], key);
      forall i, j | 0 <= i < j < |r| ensures KeyLeq(key(r[i]), key(r[j])) {
        if i == 0 {
          assert r[j] == t[j - 1];
          assert r[j] in multiset(t);
          if r[j] != x {
            assert r[j] in multiset(s[1..]);
            var k :| 0 <= k < |s[1..]| && s[1..][k] == r[j];
            assert s[k + 1] == r[j];
          }
        }
      }
    }
  }

  /** The sort returns a permutation of its input, ordered by `key`. */
  lemma {:induction false} SortBySpec<T>(s: seq<T>, key: T -> seq<string>)
    ensures multiset(SortBy(s, key)) == multiset(s)
    ensures SortedBy(SortBy(s, key), key)
    decreases |s|
  {
    if s != [] {
      var init := s[..|s| - 1];
      SortBySpec(init, key);
      InsertPermutes(s[|s| - 1], SortBy(init, key), key);
      InsertSorted(s[|s| - 1], SortBy(init, key), key);
      assert s == init + [s[|s| - 1]];
    }
  }

  /** The elements of `s` whose key is `k`, in their order. */
  function WithKey<T>(s: seq<T>, key: T -> seq<string>, k: seq<string>): seq<T>
  {
    if s == [] then [] else (if key(s[0]) == k then [s[0]] else []) + WithKey(s[1..], key, k)
  }

  lemma {:induction false} WithKeyAppend<T>(s: seq<T>, x: T, key: T -> seq<string>, k: seq<string>)
    ensures WithKey(s + [x], key, k) == WithKey(s, key, k) + (if key(x) == k then [x] else [])
  {
    if s != [] {
      assert (s + [x])[1..] == s[1..] + [x];
      WithKeyAppend(s[1..], x, key, k);
    }
  }

  lemma {:induction false} WithKeyNone<T>(s: seq<T>, key: T -> seq<string>, k: seq<string>)
    requires forall j :: 0 <= j < |s| ==> key(s[j]) != k
    ensures WithKey(s, key, k) == []
  {
    if s != [] {
      WithKeyNone(s[1..], key, k);
    }
  }

  /** A key strictly below the first key of a sorted sequence occurs
      nowhere in it. */
  lemma BelowFirstKey<T>(x: T, s: seq<T>, key: T -> seq<string>)
    requires SortedBy(s, key) && s != [] && !KeyLeq(key(s[0]), key(x))
    ensures forall j :: 0 <= j < |s| ==> key(s[j]) != key(x)
  {
    KeyLeqTotal(key(x), key(x));
  }

  lemma {:induction false} InsertStable<T>(x: T, s: seq<T>, key: T -> seq<string>, k: seq<string>)
    requires SortedBy(s, key)
    ensures WithKey(Insert(x, s, key), key, k) == WithKey(s, key, k) + (if key(x) == k then [x] else [])
  {
    var tail := if key(x) == k then [x] else [];
    if s == [] {
    } else if !KeyLeq(key(s[0]), key(x)) {
      var r := Insert(x, s, key);
      assert r == [x] + s && r[1..] == s;
      if key(x) == k {
        BelowFirstKey(x, s, key);
        WithKeyNone(s, key, k);
      }
    } else {
      var r, head := Insert(x, s, key), if key(s[0]) == k then [s[0]] else [];
      assert r[0] == s[0] && r[1..] == Insert(x, s[1..], key);
      SortedTail(s, key);
      InsertStable(x, s[1..], key, k);
      calc {
        WithKey(r, key, k);
        head + WithKey(Insert(x, s[1..], key), key, k);
        head + (WithKey(s[1..], key, k) + tail);
        (head + WithKey(s[1..], key, k)) + tail;
        WithKey(s, key, k) + tail;
      }
    }
  }

  lemma SortedTail<T>(s: seq<T>, key: T -> seq<string>)
    requires SortedBy(s, key) && s != []
    ensures SortedBy(s[1..], key)
  {
    forall i, j | 0 <= i < j < |s[1..]| ensures KeyLeq(key(s[1..][i]), key(s[1..][j])) {
      assert s[1..][i] == s[i + 1] && s[1..][j] == s[j + 1];
    }
  }

  /** The sort is stable: the elements sharing a key keep their input
      order. */
  lemma {:induction false} SortByStable<T>(s: seq<T>, key: T -> seq<string>, k: seq<string>)
    ensures WithKey(SortBy(s, key), key, k) == WithKey(s, key, k)
    decreases |s|
  {
    if s != [] {
      var init, last := s[..|s| - 1], s[|s| - 1];
      var sorted := SortBy(init, key);
      assert SortBy(s, key) == Insert(last, sorted, key);
      SortByStable(init, key, k);
      SortBySpec(init, key);
      InsertStable(last, sorted, key, k);
      assert s == init + [last];
      WithKeyAppend(init, last, key, k);
    }
  }
}
