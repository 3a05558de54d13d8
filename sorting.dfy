/**
 * Insertion sort by an integer key. It stands for the library calls
 * `sorted(..., key=...)` and `list.sort()` of kd.py, which are stable:
 * elements with equal keys keep their relative order (`SortByKeyIsStable`).
 */
module Sorting {

  ghost predicate SortedBy<T>(s: seq<T>, key: T -> int) {
    forall i, j :: 0 <= i < j < |s| ==> key(s[i]) <= key(s[j])
  }

  /** Identity key, for sorting plain integers. */
  function Id(x: int): int { x }

  /** Insert `x` into `s` after the elements whose key is at most `key(x)`. */
  function InsertByKey<T>(s: seq<T>, x: T, key: T -> int): (r: seq<T>)
    ensures |r| == |s| + 1
    ensures multiset(r) == multiset(s) + multiset{x}
  {
    if s == [] then [x]
    else if key(x) < key(s[0]) then [x] + s
    else assert s == [s[0]] + s[1..]; [s[0]] + InsertByKey(s[1..], x, key)
  }

  /** Where `InsertByKey` puts `x`: before the first element whose key is larger. */
  function KeyPos<T>(s: seq<T>, x: T, key: T -> int): (j: nat)
    ensures j <= |s|
  {
    if s == [] || key(x) < key(s[0]) then 0 else 1 + KeyPos(s[1..], x, key)
  }

  /** No larger key comes before that index, and a larger key sits at it. */
  lemma {:induction false} KeyPosFacts<T>(s: seq<T>, x: T, key: T -> int)
    ensures var j := KeyPos(s, x, key);
      (forall i :: 0 <= i < j ==> key(s[i]) <= key(x)) && (j < |s| ==> key(x) < key(s[j]))
  {
    if s != [] && key(s[0]) <= key(x) {
      KeyPosFacts(s[1..], x, key);
      var j := KeyPos(s, x, key);
      forall i | 0 <= i < j ensures key(s[i]) <= key(x) {
        if i > 0 {
          assert s[i] == s[1..][i - 1];
        }
      }
      if j < |s| {
        assert s[j] == s[1..][j - 1];
      }
    }
  }

  lemma {:induction false} InsertByKeyAt<T>(s: seq<T>, x: T, key: T -> int)
    ensures var j := KeyPos(s, x, key); InsertByKey(s, x, key) == s[..j] + [x] + s[j..]
  {
    if s == [] {
      assert InsertByKey(s, x, key) == [x];
    } else if key(x) < key(s[0]) {
      assert KeyPos(s, x, key) == 0 && InsertByKey(s, x, key) == [x] + s;
      assert s[..0] + [x] + s[0..] == [x] + s;
    } else {
      var tail := s[1..];
      InsertByKeyAt(tail, x, key);
      var j := KeyPos(tail, x, key);
      assert KeyPos(s, x, key) == j + 1;
      assert InsertByKey(s, x, key) == [s[0]] + InsertByKey(tail, x, key);
      ConsAt(s, x, j);
    }
  }

  /** Putting the head back in front of a split tail splits `s` one place later. */
  lemma ConsAt<T>(s: seq<T>, x: T, j: nat)
    requires 0 < |s| && j < |s|
    ensures [s[0]] + (s[1..][..j] + [x] + s[1..][j..]) == s[..j + 1] + [x] + s[j + 1..]
  {
    var a, b := s[1..][..j], s[1..][j..];
    assert s[..j + 1] == [s[0]] + a;
    assert s[j + 1..] == b;
    assert [s[0]] + (a + [x] + b) == ([s[0]] + a) + [x] + b;
  }

  /**
   * Sorting a list whose last element is `x` puts `x` at an index with no
   * larger key before it and only larger keys after it: equal keys stay
   * ahead of `x`, as a stable sort keeps them.
   */
  lemma SortPlacesLast<T>(s: seq<T>, x: T, key: T -> int) returns (j: nat)
    ensures var r := SortByKey(s + [x], key);
      j < |r| && r[j] == x &&
      (forall i :: 0 <= i < j ==> key(r[i]) <= key(x)) &&
      (forall i :: j < i < |r| ==> key(x) < key(r[i]))
  {
    var sx := s + [x];
    assert sx[..|sx| - 1] == s && sx[|sx| - 1] == x;
    var t := SortByKey(s, key);
    var r := SortByKey(sx, key);
    assert r == InsertByKey(t, x, key);
    SortByKeyFacts(s, key);
    InsertByKeyAt(t, x, key);
    KeyPosFacts(t, x, key);
    j := KeyPos(t, x, key);
    assert r == t[..j] + [x] + t[j..];
    assert |r| == |t| + 1 && r[j] == x;
    forall i | 0 <= i < j ensures key(r[i]) <= key(x) {
      assert r[i] == t[i];
    }
    forall i | j < i < |r| ensures key(x) < key(r[i]) {
      assert r[i] == t[i - 1];
      assert key(t[j]) <= key(t[i - 1]);
    }
  }

  /** The same placement, read on the sorted keys. */
  lemma SortPlacesLastKeys<T>(d: seq<T>, x: T, key: T -> int) returns (j: nat)
    requires |d| > 0 && d[|d| - 1] == x
    ensures var r := SortByKey(d, key); var ks := SortByKey(Keys(d, key), Id);
      j < |r| == |ks| && r[j] == x && ks[j] == key(x) &&
      (forall i :: 0 <= i < j ==> ks[i] <= key(x)) &&
      (forall i :: j < i < |ks| ==> key(x) < ks[i])
  {
    var s := d[..|d| - 1];
    assert d == s + [x];
    j := SortPlacesLast(s, x, key);
    KeysOfSort(d, key);
  }

  function SortByKey<T>(s: seq<T>, key: T -> int): (r: seq<T>)
    ensures |r| == |s|
    ensures multiset(r) == multiset(s)
    decreases |s|
  {
    if s == [] then []
    else
      assert s == s[..|s| - 1] + [s[|s| - 1]];
      InsertByKey(SortByKey(s[..|s| - 1], key), s[|s| - 1], key)
  }

  /** The key of every element, in order. */
  function Keys<T>(s: seq<T>, key: T -> int): (r: seq<int>)
    ensures |r| == |s| && forall i :: 0 <= i < |s| ==> r[i] == key(s[i])
  {
    seq(|s|, i requires 0 <= i < |s| => key(s[i]))
  }

  lemma {:induction false} InsertByKeyFacts<T>(s: seq<T>, x: T, key: T -> int)
    ensures SortedBy(s, key) ==> SortedBy(InsertByKey(s, x, key), key)
  {
    if s != [] && key(s[0]) <= key(x) {
      InsertByKeyFacts(s[1..], x, key);
      assert s == [s[0]] + s[1..];
      var r := InsertByKey(s, x, key);
      var t := InsertByKey(s[1..], x, key);
      if SortedBy(s, key) {
        assert SortedBy(s[1..], key);
        // every element of the tail insertion is s[1..]'s or x, all at least key(s[0])
        forall i | 0 <= i < |t| ensures key(s[0]) <= key(t[i]) {
          assert t[i] in multiset(t);
          assert t[i] in multiset(s[1..]) || t[i] == x;
          if t[i] != x {
            var j :| 0 <= j < |s[1..]| && s[1..][j] == t[i];
            assert s[j + 1] == t[i];
          }
        }
        assert r == [s[0]] + t;
      }
    } else if s != [] {
      assert InsertByKey(s, x, key) == [x] + s;
    }
  }

  /** The sort returns a sorted permutation of its input. */
  lemma {:induction false} SortByKeyFacts<T>(s: seq<T>, key: T -> int)
    ensures SortedBy(SortByKey(s, key), key)
  {
    if s != [] {
      var init := s[..|s| - 1];
      SortByKeyFacts(init, key);
      InsertByKeyFacts(SortByKey(init, key), s[|s| - 1], key);
      assert SortByKey(s, key) == InsertByKey(SortByKey(init, key), s[|s| - 1], key);
    }
  }

  lemma KeysCons<T>(a: T, rest: seq<T>, key: T -> int)
    ensures Keys([a] + rest, key) == [key(a)] + Keys(rest, key)
  {
  }

  lemma {:induction false} KeysOfInsert<T>(s: seq<T>, x: T, key: T -> int)
    ensures Keys(InsertByKey(s, x, key), key) == InsertByKey(Keys(s, key), key(x), Id)
  {
    var ks := Keys(s, key);
    if s == [] {
      assert Keys([x], key) == [key(x)];
    } else if key(x) < key(s[0]) {
      KeysCons(x, s, key);
      assert ks[0] == key(s[0]);
      assert InsertByKey(ks, key(x), Id) == [key(x)] + ks;
    } else {
      var t := InsertByKey(s[1..], x, key);
      KeysOfInsert(s[1..], x, key);
      KeysCons(s[0], t, key);
      KeysCons(s[0], s[1..], key);
      assert s == [s[0]] + s[1..];
      assert ks[0] == key(s[0]) && ks[1..] == Keys(s[1..], key);
      assert InsertByKey(ks, key(x), Id) == [ks[0]] + InsertByKey(ks[1..], key(x), Id);
    }
  }

  /**
   * Sorting records by a key and then reading the keys gives the same list as
   * sorting the keys themselves.
   */
  lemma {:induction false} KeysOfSort<T>(s: seq<T>, key: T -> int)
    ensures Keys(SortByKey(s, key), key) == SortByKey(Keys(s, key), Id)
  {
    if s != [] {
      var init := s[..|s| - 1];
      KeysOfSort(init, key);
      KeysOfInsert(SortByKey(init, key), s[|s| - 1], key);
      assert Keys(s, key)[..|s| - 1] == Keys(init, key);
    }
  }

  /** The elements whose key is `v`, in their order in `s`. */
  function WithKey<T>(s: seq<T>, key: T -> int, v: int): seq<T>
    decreases |s|
  {
    if s == [] then []
    else (if key(s[0]) == v then [s[0]] else []) + WithKey(s[1..], key, v)
  }

  lemma {:induction false} WithKeyAppend<T>(a: seq<T>, b: seq<T>, key: T -> int, v: int)
    ensures WithKey(a + b, key, v) == WithKey(a, key, v) + WithKey(b, key, v)
    decreases |a|
  {
    if a != [] {
      var ab := a + b;
      assert ab[0] == a[0] && ab[1..] == a[1..] + b;
      var head := if key(a[0]) == v then [a[0]] else [];
      assert WithKey(ab, key, v) == head + WithKey(a[1..] + b, key, v);
      assert WithKey(a, key, v) == head + WithKey(a[1..], key, v);
      WithKeyAppend(a[1..], b, key, v);
      assert head + (WithKey(a[1..], key, v) + WithKey(b, key, v)) == (head + WithKey(a[1..], key, v)) + WithKey(b, key, v);
    } else {
      assert a + b == b;
    }
  }

  lemma {:induction false} WithKeyAbove<T>(s: seq<T>, key: T -> int, v: int)
    requires forall i :: 0 <= i < |s| ==> v < key(s[i])
    ensures WithKey(s, key, v) == []
    decreases |s|
  {
    if s != [] {
      WithKeyAbove(s[1..], key, v);
    }
  }

  lemma WithKeyOne<T>(x: T, key: T -> int, v: int)
    ensures WithKey([x], key, v) == if key(x) == v then [x] else []
  {
    assert [x][1..] == [];
  }

  lemma WithKeyCons<T>(y: T, s: seq<T>, key: T -> int, v: int)
    ensures WithKey([y] + s, key, v) == (if key(y) == v then [y] else []) + WithKey(s, key, v)
  {
    assert ([y] + s)[0] == y && ([y] + s)[1..] == s;
  }

  /** An insertion into a sorted list puts `x` after every element with its key. */
  lemma {:induction false} WithKeyOfInsert<T>(s: seq<T>, x: T, key: T -> int, v: int)
    requires SortedBy(s, key)
    ensures WithKey(InsertByKey(s, x, key), key, v) == WithKey(s, key, v) + (if key(x) == v then [x] else [])
    decreases |s|
  {
    if s == [] {
      WithKeyOne(x, key, v);
    } else if key(x) < key(s[0]) {
      WithKeyCons(x, s, key, v);
      if key(x) == v {
        WithKeyAbove(s, key, v);
      }
    } else {
      var tail := s[1..];
      assert SortedBy(tail, key);
      WithKeyOfInsert(tail, x, key, v);
      WithKeyCons(s[0], InsertByKey(tail, x, key), key, v);
      assert s == [s[0]] + tail;
      WithKeyCons(s[0], tail, key, v);
    }
  }

  lemma StableStep<T>(sorted: seq<T>, init: seq<T>, x: T, key: T -> int, v: int)
    requires SortedBy(sorted, key) && WithKey(sorted, key, v) == WithKey(init, key, v)
    ensures WithKey(InsertByKey(sorted, x, key), key, v) == WithKey(init + [x], key, v)
  {
    WithKeyOfInsert(sorted, x, key, v);
    WithKeyAppend(init, [x], key, v);
    WithKeyOne(x, key, v);
  }

  /**
   * The sort is stable: for every key, the elements with that key appear in
   * the result in the same order as in the input.
   */
  lemma {:induction false} SortByKeyIsStable<T>(s: seq<T>, key: T -> int, v: int)
    ensures WithKey(SortByKey(s, key), key, v) == WithKey(s, key, v)
    decreases |s|
  {
    if s != [] {
      var init, x := s[..|s| - 1], s[|s| - 1];
      var sorted := SortByKey(init, key);
      assert SortByKey(s, key) == InsertByKey(sorted, x, key);
      assert s == init + [x];
      SortByKeyIsStable(init, key, v);
      SortByKeyFacts(init, key);
      StableStep(sorted, init, x, key, v);
    }
  }
}
