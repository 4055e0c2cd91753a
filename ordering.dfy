/** LINQ `OrderBy(key)`: a stable sort on an integer key. The resolver orders config files by
    score with it, and the build orders its pre-build callbacks by callback order with it. */
module Ordering {
  import opened Wrappers

  ghost predicate SortedBy<T>(s: seq<T>, key: T -> int) {
    forall i, j :: 0 <= i < j < |s| ==> key(s[i]) <= key(s[j])
  }

  /** The elements of `s` whose key is `k`, in the order they appear in `s`. */
  function WithKey<T>(s: seq<T>, key: T -> int, k: int): seq<T>
    decreases |s|
  {
    if s == [] then [] else (if key(s[0]) == k then [s[0]] else []) + WithKey(s[1..], key, k)
  }

  lemma {:induction false} WithKeyAppend<T>(a: seq<T>, b: seq<T>, key: T -> int, k: int)
    ensures WithKey(a + b, key, k) == WithKey(a, key, k) + WithKey(b, key, k)
    decreases |a|
  {
    if a == [] {
      assert a + b == b;
    } else {
      var h := if key(a[0]) == k then [a[0]] else [];
      assert (a + b)[0] == a[0] && (a + b)[1..] == a[1..] + b;
      assert WithKey(a + b, key, k) == h + WithKey(a[1..] + b, key, k);
      assert WithKey(a, key, k) == h + WithKey(a[1..], key, k);
      WithKeyAppend(a[1..], b, key, k);
    }
  }

  /** Puts `x` behind every element whose key is not greater than its own. */
  function Insert<T>(x: T, s: seq<T>, key: T -> int): (r: seq<T>)
    ensures |r| == |s| + 1
    decreases |s|
  {
    if s == [] then [x]
    else if key(x) < key(s[0]) then [x] + s
    else [s[0]] + Insert(x, s[1..], key)
  }

  /** The elements of `s`, ascending by key; elements with equal keys keep their order in `s`. */
  function OrderBy<T>(s: seq<T>, key: T -> int): (r: seq<T>)
    ensures |r| == |s|
    decreases |s|
  {
    if s == [] then [] else Insert(s[|s| - 1], OrderBy(s[..|s| - 1], key), key)
  }

  lemma {:induction false} InsertMultiset<T>(x: T, s: seq<T>, key: T -> int)
    ensures multiset(Insert(x, s, key)) == multiset(s) + multiset{x}
    decreases |s|
  {
    if s != [] && key(s[0]) <= key(x) {
      InsertMultiset(x, s[1..], key);
      assert s == [s[0]] + s[1..];
    }
  }

  lemma {:induction false} InsertSorted<T>(x: T, s: seq<T>, key: T -> int)
    requires SortedBy(s, key)
    ensures SortedBy(Insert(x, s, key), key)
    decreases |s|
  {
    if s != [] && key(s[0]) <= key(x) {
      InsertSorted(x, s[1..], key);
      InsertMultiset(x, s[1..], key);
      var t := Insert(x, s[1..], key);
      var r := Insert(x, s, key);
      assert r == [s[0]] + t;
      forall j | 0 <= j < |t| ensures key(s[0]) <= key(t[j]) {
        assert t[j] in multiset(t);
        assert t[j] == x || t[j] in multiset(s[1..]);
      }
    }
  }

  lemma {:induction false} InsertWithKey<T>(x: T, s: seq<T>, key: T -> int, k: int)
    requires SortedBy(s, key)
    ensures WithKey(Insert(x, s, key), key, k) == WithKey(s, key, k) + (if key(x) == k then [x] else [])
    decreases |s|
  {
    var r := Insert(x, s, key);
    if s == [] {
    } else if key(x) < key(s[0]) {
      assert r[0] == x && r[1..] == s;
      if key(x) == k {
        WithKeyNone(s, key, k);
      }
    } else {
      var h := if key(s[0]) == k then [s[0]] else [];
      var t := Insert(x, s[1..], key);
      assert r[0] == s[0] && r[1..] == t;
      assert SortedBy(s[1..], key);
      InsertWithKey(x, s[1..], key, k);
      assert WithKey(r, key, k) == h + WithKey(t, key, k);
      assert WithKey(s, key, k) == h + WithKey(s[1..], key, k);
    }
  }

  /** No element of a sorted sequence whose first key exceeds `k` has key `k`. */
  lemma {:induction false} WithKeyNone<T>(s: seq<T>, key: T -> int, k: int)
    requires SortedBy(s, key)
    requires s != [] ==> k < key(s[0])
    ensures WithKey(s, key, k) == []
    decreases |s|
  {
    if s != [] {
      WithKeyNone(s[1..], key, k);
    }
  }

  /** `OrderBy` sorts, keeps every element, and is stable: for every key value, the
      elements with that key appear in the result in the order they have in the input. */
  lemma {:induction false} OrderByCorrect<T>(s: seq<T>, key: T -> int)
    ensures SortedBy(OrderBy(s, key), key)
    ensures multiset(OrderBy(s, key)) == multiset(s)
    ensures forall k :: WithKey(OrderBy(s, key), key, k) == WithKey(s, key, k)
    decreases |s|
  {
    if s != [] {
      var init, x := s[..|s| - 1], s[|s| - 1];
      OrderByCorrect(init, key);
      InsertSorted(x, OrderBy(init, key), key);
      InsertMultiset(x, OrderBy(init, key), key);
      assert s == init + [x];
      forall k ensures WithKey(OrderBy(s, key), key, k) == WithKey(s, key, k) {
        InsertWithKey(x, OrderBy(init, key), key, k);
        WithKeyAppend(init, [x], key, k);
      }
    }
  }

  /** The last element of `s` that satisfies `p`. */
  function LastWith<T(!new)>(s: seq<T>, p: T -> bool): (r: Option<T>)
    ensures r.Some? ==> r.value in s && p(r.value)
    ensures r.None? <==> forall x :: x in s ==> !p(x)
    decreases |s|
  {
    if s == [] then None
    else
      assert forall x :: x in s <==> x == s[0] || x in s[1..];
      var rest := LastWith(s[1..], p);
      if rest.Some? then rest
      else if p(s[0]) then Some(s[0])
      else None
  }

  /** Inserting `x` into a sorted sequence makes it the last element satisfying `p` exactly
      when it satisfies `p` and no element that does has a greater key; otherwise the last such
      element is unchanged. */
  lemma {:induction false} InsertLast<T(!new)>(x: T, s: seq<T>, key: T -> int, p: T -> bool)
    requires SortedBy(s, key)
    ensures LastWith(Insert(x, s, key), p)
         == if p(x) && forall y :: y in s && p(y) ==> key(y) <= key(x) then Some(x) else LastWith(s, p)
    decreases |s|
  {
    var r := Insert(x, s, key);
    if s == [] {
      assert r[1..] == [];
    } else if key(x) < key(s[0]) {
      assert r[1..] == s;
      forall y | y in s ensures key(x) < key(y) {
        var j :| 0 <= j < |s| && s[j] == y;
        assert j == 0 || key(s[0]) <= key(s[j]);
      }
    } else {
      InsertLast(x, s[1..], key, p);
      assert r[1..] == Insert(x, s[1..], key);
      assert forall y :: y in s <==> y == s[0] || y in s[1..];
    }
  }

  /** After a stable sort, the last element satisfying `p` is the one with the greatest key
      among those that do, and among several with that key, the last of them in the input. */
  lemma {:induction false} OrderByLast<T(!new)>(s: seq<T>, key: T -> int, p: T -> bool, i: nat)
    requires i < |s| && p(s[i])
    requires forall j :: 0 <= j < |s| && p(s[j]) ==> key(s[j]) < key(s[i]) || (key(s[j]) == key(s[i]) && j <= i)
    ensures LastWith(OrderBy(s, key), p) == Some(s[i])
    decreases |s|
  {
    var init, x := s[..|s| - 1], s[|s| - 1];
    var r0 := OrderBy(init, key);
    assert OrderBy(s, key) == Insert(x, r0, key);
    OrderByCorrect(init, key);
    if i == |s| - 1 {
      assert forall j :: 0 <= j < |init| && p(init[j]) ==> key(init[j]) <= key(x);
      InsertGreatest(x, init, r0, key, p);
    } else {
      assert forall j :: 0 <= j < |init| ==> init[j] == s[j];
      OrderByLast(init, key, p, i);
      InsertKeepsLast(x, r0, key, p, s[i]);
    }
  }

  /** Inserting an element that satisfies `p` and whose key is at least that of every element
      of the input that does makes it the last such element. */
  lemma InsertGreatest<T(!new)>(x: T, init: seq<T>, r0: seq<T>, key: T -> int, p: T -> bool)
    requires SortedBy(r0, key) && multiset(r0) == multiset(init) && p(x)
    requires forall j :: 0 <= j < |init| && p(init[j]) ==> key(init[j]) <= key(x)
    ensures LastWith(Insert(x, r0, key), p) == Some(x)
  {
    forall y | y in r0 && p(y) ensures key(y) <= key(x) {
      assert y in multiset(init);
      var j :| 0 <= j < |init| && init[j] == y;
    }
    InsertLast(x, r0, key, p);
  }

  /** In a sorted sequence, an element with a smaller key stands before one with a greater key. */
  lemma SortedBefore<T>(s: seq<T>, key: T -> int, a: T, b: T)
    requires SortedBy(s, key) && key(a) < key(b)
    ensures forall i, j :: 0 <= i < |s| && 0 <= j < |s| && s[i] == a && s[j] == b ==> i < j
  {
  }

  /** Inserting an element that does not satisfy `p`, or whose key is below that of the last
      element that does, leaves that last element in place. */
  lemma InsertKeepsLast<T(!new)>(x: T, s: seq<T>, key: T -> int, p: T -> bool, w: T)
    requires SortedBy(s, key) && LastWith(s, p) == Some(w)
    requires p(x) ==> key(x) < key(w)
    ensures LastWith(Insert(x, s, key), p) == Some(w)
  {
    InsertLast(x, s, key, p);
  }
}
