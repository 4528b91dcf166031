/**
 * A stable sort into non-increasing order of an integer key, as
 * `[...xs].sort((a, b) => key(b) - key(a))` produces it: Array.prototype.sort is
 * required to be stable by section 22.1.3.27 of ECMAScript 2019, so elements with
 * equal keys keep their original relative order.
 */
module StableSort {

  predicate SortedDesc<T>(s: seq<T>, key: T -> int)
  {
    forall i, j :: 0 <= i < j < |s| ==> key(s[i]) >= key(s[j])
  }

  /** The elements whose key is k, in their order in s. */
  function WithKey<T>(s: seq<T>, key: T -> int, k: int): seq<T>
  {
    if s == [] then [] else (if key(s[0]) == k then [s[0]] else []) + WithKey(s[1..], key, k)
  }

  /** Places x before the first element whose key does not exceed its own. */
  function Insert<T>(x: T, s: seq<T>, key: T -> int): seq<T>
  {
    if s == [] || key(s[0]) <= key(x) then [x] + s else [s[0]] + Insert(x, s[1..], key)
  }

  function SortDesc<T>(s: seq<T>, key: T -> int): seq<T>
  {
    if s == [] then [] else Insert(s[0], SortDesc(s[1..], key), key)
  }

  lemma {:induction false} WithKeyMembers<T>(s: seq<T>, key: T -> int, k: int)
    ensures forall y :: y in WithKey(s, key, k) <==> y in s && key(y) == k
  {
    if s != [] {
      WithKeyMembers(s[1..], key, k);
      assert forall y :: y in s <==> y == s[0] || y in s[1..];
    }
  }

  lemma {:induction false} WithKeyAppend<T>(a: seq<T>, b: seq<T>, key: T -> int, k: int)
    ensures WithKey(a + b, key, k) == WithKey(a, key, k) + WithKey(b, key, k)
  {
    if a == [] {
      assert a + b == b;
    } else {
      var h := if key(a[0]) == k then [a[0]] else [];
      assert (a + b)[0] == a[0];
      assert (a + b)[1..] == a[1..] + b;
      WithKeyAppend(a[1..], b, key, k);
      assert WithKey(a + b, key, k) == h + WithKey(a[1..] + b, key, k);
      assert WithKey(a, key, k) == h + WithKey(a[1..], key, k);
      assert h + (WithKey(a[1..], key, k) + WithKey(b, key, k)) == (h + WithKey(a[1..], key, k)) + WithKey(b, key, k);
    }
  }

  lemma {:induction false} InsertPermutes<T>(x: T, s: seq<T>, key: T -> int)
    ensures multiset(Insert(x, s, key)) == multiset(s) + multiset{x}
  {
    if !(s == [] || key(s[0]) <= key(x)) {
      InsertPermutes(x, s[1..], key);
      assert s == [s[0]] + s[1..];
    }
  }

  lemma {:induction false} InsertSorted<T>(x: T, s: seq<T>, key: T -> int)
    requires SortedDesc(s, key)
    ensures SortedDesc(Insert(x, s, key), key)
  {
    if !(s == [] || key(s[0]) <= key(x)) {
      var t := Insert(x, s[1..], key);
      InsertSorted(x, s[1..], key);
      InsertPermutes(x, s[1..], key);
      forall y | y in t ensures key(y) <= key(s[0]) {
        assert y in multiset(t);
        if y != x {
          var i :| 0 <= i < |s[1..]| && s[1..][i] == y;
          assert s[i + 1] == y;
        }
      }
      assert forall j :: 0 < j < |[s[0]] + t| ==> ([s[0]] + t)[j] in t;
    }
  }

  lemma {:induction false} InsertWithKey<T>(x: T, s: seq<T>, key: T -> int, k: int)
    ensures WithKey(Insert(x, s, key), key, k) == (if key(x) == k then [x] else []) + WithKey(s, key, k)
  {
    var hx := if key(x) == k then [x] else [];
    if s == [] || key(s[0]) <= key(x) {
      assert ([x] + s)[0] == x && ([x] + s)[1..] == s;
      assert WithKey([x] + s, key, k) == hx + WithKey(s, key, k);
    } else {
      var t := Insert(x, s[1..], key);
      var h0 := if key(s[0]) == k then [s[0]] else [];
      InsertWithKey(x, s[1..], key, k);
      assert ([s[0]] + t)[0] == s[0] && ([s[0]] + t)[1..] == t;
      assert WithKey([s[0]] + t, key, k) == h0 + WithKey(t, key, k);
      assert WithKey(s, key, k) == h0 + WithKey(s[1..], key, k);
      if key(x) == k {
        assert key(s[0]) != k;
      }
    }
  }

  /**
   * The sort returns a permutation of its input in non-increasing key order that keeps,
   * for every key, the elements carrying it in their original order.
   */
  lemma {:induction false} SortDescCorrect<T>(s: seq<T>, key: T -> int)
    ensures multiset(SortDesc(s, key)) == multiset(s)
    ensures SortedDesc(SortDesc(s, key), key)
    ensures forall k :: WithKey(SortDesc(s, key), key, k) == WithKey(s, key, k)
  {
    if s != [] {
      SortDescCorrect(s[1..], key);
      InsertPermutes(s[0], SortDesc(s[1..], key), key);
      InsertSorted(s[0], SortDesc(s[1..], key), key);
      forall k ensures WithKey(SortDesc(s, key), key, k) == WithKey(s, key, k) {
        InsertWithKey(s[0], SortDesc(s[1..], key), key, k);
      }
      assert s == [s[0]] + s[1..];
    }
  }

  /**
   * Sortedness together with per-key order determines the result: any stable sort of
   * the same input into the same order returns exactly SortDesc's sequence.
   */
  lemma {:induction false} StableSortUnique<T>(a: seq<T>, b: seq<T>, key: T -> int)
    requires SortedDesc(a, key) && SortedDesc(b, key)
    requires forall k :: WithKey(a, key, k) == WithKey(b, key, k)
    ensures a == b
  {
    if a != [] || b != [] {
      var ka, kb := if a == [] then 0 else key(a[0]), if b == [] then 0 else key(b[0]);
      if a != [] {
        HeadOfWithKey(a, key, b);
      }
      if b != [] {
        HeadOfWithKey(b, key, a);
      }
      assert a != [] && b != [] && ka == kb;
      assert a[0] == WithKey(a, key, ka)[0] == WithKey(b, key, kb)[0] == b[0];
      forall k ensures WithKey(a[1..], key, k) == WithKey(b[1..], key, k) {
        assert WithKey(a, key, k) == WithKey(b, key, k);
        if k == ka {
          assert WithKey(a[1..], key, k) == WithKey(a, key, k)[1..];
          assert WithKey(b[1..], key, k) == WithKey(b, key, k)[1..];
        } else {
          assert WithKey(a, key, k) == WithKey(a[1..], key, k);
          assert WithKey(b, key, k) == WithKey(b[1..], key, k);
        }
      }
      StableSortUnique(a[1..], b[1..], key);
      assert a == [a[0]] + a[1..] && b == [b[0]] + b[1..];
    }
  }

  /**
   * When a sorted s and a sorted other have the same per-key subsequences, other is not
   * empty and its head's key is at least that of s's head.
   */
  lemma HeadOfWithKey<T>(s: seq<T>, key: T -> int, other: seq<T>)
    requires s != [] && SortedDesc(other, key)
    requires forall k :: WithKey(s, key, k) == WithKey(other, key, k)
    ensures other != [] && key(s[0]) <= key(other[0])
  {
    var k := key(s[0]);
    WithKeyMembers(s, key, k);
    WithKeyMembers(other, key, k);
    assert s[0] in WithKey(s, key, k);
    var y := WithKey(other, key, k)[0];
    assert y in WithKey(other, key, k);
    var i :| 0 <= i < |other| && other[i] == y;
    if i > 0 {
      assert key(other[0]) >= key(other[i]);
    }
  }
}
