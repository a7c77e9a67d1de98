/** `slice::sort_by_key`: a stable sort on a natural-number key. */
module StableSort {

  function Insert<T>(key: T -> nat, x: T, s: seq<T>): (r: seq<T>) {
    if s == [] || key(x) <= key(s[0]) then [x] + s
    else [s[0]] + Insert(key, x, s[1..])
  }

  function SortByKey<T>(key: T -> nat, s: seq<T>): (r: seq<T>) {
    if s == [] then [] else Insert(key, s[0], SortByKey(key, s[1..]))
  }

  ghost predicate Ordered<T>(key: T -> nat, s: seq<T>) {
    forall i, j :: 0 <= i < j < |s| ==> key(s[i]) <= key(s[j])
  }

  /** The elements with key `k`, in order. */
  function WithKey<T>(key: T -> nat, s: seq<T>, k: nat): seq<T> {
    if s == [] then []
    else (if key(s[0]) == k then [s[0]] else []) + WithKey(key, s[1..], k)
  }

  lemma {:induction false} InsertPermutes<T>(key: T -> nat, x: T, s: seq<T>)
    ensures multiset(Insert(key, x, s)) == multiset{x} + multiset(s)
  {
    if s != [] && key(x) > key(s[0]) {
      InsertPermutes(key, x, s[1..]);
      assert s == [s[0]] + s[1..];
    }
  }

  lemma {:induction false} InsertOrders<T>(key: T -> nat, x: T, s: seq<T>)
    requires Ordered(key, s)
    ensures Ordered(key, Insert(key, x, s))
  {
    if s != [] && key(x) > key(s[0]) {
      var tail := Insert(key, x, s[1..]);
      InsertOrders(key, x, s[1..]);
      InsertPermutes(key, x, s[1..]);
      forall j | 0 <= j < |tail|
        ensures key(s[0]) <= key(tail[j])
      {
        assert tail[j] in multiset(tail);
        assert tail[j] == x || tail[j] in s[1..];
      }
    }
  }

  lemma {:induction false} InsertKeepsTies<T>(key: T -> nat, x: T, s: seq<T>, k: nat)
    ensures WithKey(key, Insert(key, x, s), k) == WithKey(key, [x] + s, k)
  {
    if s != [] && key(x) > key(s[0]) {
      InsertKeepsTies(key, x, s[1..], k);
      var tail := Insert(key, x, s[1..]);
      assert ([x] + s)[1..] == s && ([x] + s[1..])[1..] == s[1..];
      assert Insert(key, x, s) == [s[0]] + tail && ([s[0]] + tail)[1..] == tail;
    }
  }

  /** Sorting permutes the elements, orders them by key, and keeps ties in their given order. */
  lemma {:induction false} SortByKeyIsStable<T>(key: T -> nat, s: seq<T>)
    ensures multiset(SortByKey(key, s)) == multiset(s)
    ensures Ordered(key, SortByKey(key, s))
    ensures forall k: nat :: WithKey(key, SortByKey(key, s), k) == WithKey(key, s, k)
  {
    if s != [] {
      var tail := SortByKey(key, s[1..]);
      SortByKeyIsStable(key, s[1..]);
      InsertPermutes(key, s[0], tail);
      InsertOrders(key, s[0], tail);
      assert s == [s[0]] + s[1..];
      forall k: nat
        ensures WithKey(key, SortByKey(key, s), k) == WithKey(key, s, k)
      {
        InsertKeepsTies(key, s[0], tail, k);
        assert ([s[0]] + tail)[1..] == tail;
      }
    }
  }

  lemma SortByKeyMembers<T>(key: T -> nat, s: seq<T>)
    ensures |SortByKey(key, s)| == |s|
    ensures forall x :: x in SortByKey(key, s) <==> x in s
  {
    SortByKeyIsStable(key, s);
    var t := SortByKey(key, s);
    assert |multiset(t)| == |multiset(s)|;
    assert forall x :: x in t <==> x in multiset(t);
    assert forall x :: x in s <==> x in multiset(s);
  }

  // ---------- selecting ----------

  /** The elements that satisfy `p`, in order. */
  function Select<T>(p: T -> bool, s: seq<T>): (r: seq<T>) {
    if s == [] then [] else if p(s[0]) then [s[0]] + Select(p, s[1..]) else Select(p, s[1..])
  }

  lemma {:induction false} SelectMembers<T>(p: T -> bool, s: seq<T>)
    ensures forall x :: x in Select(p, s) <==> x in s && p(x)
  {
    if s != [] { SelectMembers(p, s[1..]); }
  }

  lemma {:induction false} SelectConcat<T>(p: T -> bool, a: seq<T>, b: seq<T>)
    ensures Select(p, a + b) == Select(p, a) + Select(p, b)
  {
    if a == [] {
      assert a + b == b;
    } else {
      SelectConcat(p, a[1..], b);
      assert (a + b)[1..] == a[1..] + b;
    }
  }

  lemma {:induction false} FirstSelected<T>(key: T -> nat, p: T -> bool, s: seq<T>)
    requires Ordered(key, s) && Select(p, s) != []
    ensures s != [] && key(s[0]) <= key(Select(p, s)[0])
  {
    if !p(s[0]) { FirstSelected(key, p, s[1..]); }
  }

  lemma {:induction false} InsertSelect<T>(key: T -> nat, p: T -> bool, x: T, s: seq<T>)
    requires Ordered(key, s)
    ensures Select(p, Insert(key, x, s)) == if p(x) then Insert(key, x, Select(p, s)) else Select(p, s)
  {
    if s == [] {
      assert Insert(key, x, s)[1..] == [];
    } else if key(x) <= key(s[0]) {
      if Select(p, s) != [] { FirstSelected(key, p, s); }
      assert Insert(key, x, s)[1..] == s;
    } else {
      InsertSelect(key, p, x, s[1..]);
      assert Insert(key, x, s)[1..] == Insert(key, x, s[1..]);
      if p(s[0]) { assert Select(p, s)[1..] == Select(p, s[1..]); }
    }
  }

  /** Selecting commutes with sorting. */
  lemma {:induction false} SortSelect<T>(key: T -> nat, p: T -> bool, s: seq<T>)
    ensures Select(p, SortByKey(key, s)) == SortByKey(key, Select(p, s))
  {
    if s != [] {
      SortSelect(key, p, s[1..]);
      SortByKeyIsStable(key, s[1..]);
      InsertSelect(key, p, s[0], SortByKey(key, s[1..]));
      if p(s[0]) { assert Select(p, s)[1..] == Select(p, s[1..]); }
    }
  }
}
