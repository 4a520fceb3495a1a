/** Ordering a list by a numeric key: the stable insertion shared by the
    name table's sort and the Huffman queue (a new element goes before the
    first element whose key is strictly larger, so it lands after every
    element of equal key). */
module Sorting {

  /** In non-decreasing key order. */
  predicate SortedBy<T>(ss: seq<T>, key: T -> nat)
  {
    forall i, j :: 0 <= i < j < |ss| ==> key(ss[i]) <= key(ss[j])
  }

  /** The index of the first element whose key is above k, or the length
      when there is none. */
  function FirstAbove<T>(ss: seq<T>, k: nat, key: T -> nat): (i: nat)
    ensures i <= |ss|
    ensures forall j :: 0 <= j < i ==> key(ss[j]) <= k
    ensures i < |ss| ==> key(ss[i]) > k
  {
    if ss == [] || key(ss[0]) > k then 0
    else 1 + FirstAbove(ss[1..], k, key)
  }

  /** x placed before the first element whose key is above its own. */
  function InsertBy<T>(ss: seq<T>, x: T, key: T -> nat): (r: seq<T>)
    ensures multiset(r) == multiset(ss) + multiset{x}
    ensures |r| == |ss| + 1
  {
    if ss == [] then [x]
    else if key(x) < key(ss[0]) then [x] + ss
    else
      assert ss == [ss[0]] + ss[1..];
      [ss[0]] + InsertBy(ss[1..], x, key)
  }

  /** Inserting at FirstAbove is InsertBy. */
  lemma {:induction false} InsertAtFirstAbove<T>(ss: seq<T>, x: T, key: T -> nat)
    ensures var i := FirstAbove(ss, key(x), key);
      ss[..i] + [x] + ss[i..] == InsertBy(ss, x, key)
  {
    var k := key(x);
    if ss == [] {
    } else if key(ss[0]) > k {
      assert FirstAbove(ss, k, key) == 0;
      assert ss[..0] + [x] + ss[0..] == [x] + ss;
    } else {
      var tl := ss[1..];
      var i := FirstAbove(tl, k, key);
      var r := InsertBy(tl, x, key);
      InsertAtFirstAbove(tl, x, key);
      assert FirstAbove(ss, k, key) == i + 1;
      assert InsertBy(ss, x, key) == [ss[0]] + r;
      ShiftInsert(ss, x, i);
    }
  }

  /** Splitting one element later in ss is splitting its tail. */
  lemma ShiftInsert<T>(ss: seq<T>, x: T, i: nat)
    requires i < |ss|
    ensures ss[..i + 1] + [x] + ss[i + 1..] == [ss[0]] + (ss[1..][..i] + [x] + ss[1..][i..])
  {
    var tl := ss[1..];
    assert ss[..i + 1] == [ss[0]] + tl[..i];
    assert ss[i + 1..] == tl[i..];
    Regroup(ss[0], tl[..i], x, tl[i..]);
  }

  lemma Regroup<T>(h: T, a: seq<T>, x: T, b: seq<T>)
    ensures [h] + a + [x] + b == [h] + (a + [x] + b)
  {
  }

  /** Inserting into a sorted list keeps it sorted. */
  lemma {:induction false} InsertSorted<T>(ss: seq<T>, x: T, key: T -> nat)
    requires SortedBy(ss, key)
    ensures SortedBy(InsertBy(ss, x, key), key)
  {
    if ss != [] && key(x) >= key(ss[0]) {
      var tail := InsertBy(ss[1..], x, key);
      InsertSorted(ss[1..], x, key);
      forall j | 0 <= j < |tail|
        ensures key(ss[0]) <= key(tail[j])
      {
        assert tail[j] in multiset(tail);
        if tail[j] != x {
          assert tail[j] in multiset(ss[1..]);
          var k :| 0 <= k < |ss[1..]| && ss[1..][k] == tail[j];
          assert key(ss[0]) <= key(ss[k + 1]);
        }
      }
    }
  }

  /** The items inserted one after the other, from the first, into an
      empty list. */
  function InsertAll<T>(items: seq<T>, key: T -> nat): seq<T>
  {
    if items == [] then []
    else InsertBy(InsertAll(items[..|items| - 1], key), items[|items| - 1], key)
  }

  /** The items with key k, in their order. */
  function WithKey<T>(ss: seq<T>, k: nat, key: T -> nat): seq<T>
  {
    if ss == [] then []
    else WithKey(ss[..|ss| - 1], k, key) + (if key(ss[|ss| - 1]) == k then [ss[|ss| - 1]] else [])
  }

  lemma {:induction false} WithKeyAppend<T>(a: seq<T>, b: seq<T>, k: nat, key: T -> nat)
    ensures WithKey(a + b, k, key) == WithKey(a, k, key) + WithKey(b, k, key)
    decreases |b|
  {
    if b == [] {
      assert a + b == a;
    } else {
      var init := b[..|b| - 1];
      assert a + b == (a + init) + [b[|b| - 1]];
      assert (a + b)[..|a + b| - 1] == a + init;
      WithKeyAppend(a, init, k, key);
    }
  }

  lemma WithKeyOne<T>(x: T, k: nat, key: T -> nat)
    ensures WithKey([x], k, key) == if key(x) == k then [x] else []
  {
    assert [x][..0] == [];
  }

  /** No element of a sorted list whose first key is above k has key k. */
  lemma {:induction false} WithKeyNone<T>(ss: seq<T>, k: nat, key: T -> nat)
    requires SortedBy(ss, key) && ss != [] && key(ss[0]) > k
    ensures WithKey(ss, k, key) == []
    decreases |ss|
  {
    var init := ss[..|ss| - 1];
    assert key(ss[|ss| - 1]) >= key(ss[0]);
    if init != [] {
      WithKeyNone(init, k, key);
    }
  }

  /** InsertBy puts x after every element of its key: among the elements
      of that key, x comes last. */
  lemma {:induction false} InsertByWithKey<T>(ss: seq<T>, x: T, k: nat, key: T -> nat)
    requires SortedBy(ss, key)
    ensures WithKey(InsertBy(ss, x, key), k, key) == WithKey(ss, k, key) + WithKey([x], k, key)
    decreases |ss|
  {
    WithKeyOne(x, k, key);
    if ss == [] {
    } else if key(x) < key(ss[0]) {
      WithKeyAppend([x], ss, k, key);
      if key(x) == k {
        WithKeyNone(ss, k, key);
      }
    } else {
      var tl := ss[1..];
      assert ss == [ss[0]] + tl;
      InsertByWithKey(tl, x, k, key);
      WithKeyAppend([ss[0]], InsertBy(tl, x, key), k, key);
      WithKeyAppend([ss[0]], tl, k, key);
    }
  }

  /** InsertAll is a stable sort: sorted, and each key's elements in the
      order the items give them. */
  lemma {:induction false} InsertAllStable<T>(items: seq<T>, key: T -> nat)
    ensures SortedBy(InsertAll(items, key), key)
    ensures multiset(InsertAll(items, key)) == multiset(items)
    ensures forall k: nat {:trigger WithKey(items, k, key)} :: WithKey(InsertAll(items, key), k, key) == WithKey(items, k, key)
    decreases |items|
  {
    if items != [] {
      var init, last := items[..|items| - 1], items[|items| - 1];
      InsertAllStable(init, key);
      InsertSorted(InsertAll(init, key), last, key);
      assert items == init + [last];
      forall k: nat
        ensures WithKey(InsertAll(items, key), k, key) == WithKey(items, k, key)
      {
        InsertByWithKey(InsertAll(init, key), last, k, key);
        WithKeyAppend(init, [last], k, key);
      }
    }
  }

  /** An insertion sort: the stable sort of the items by key. */
  method SortBy<T>(items: seq<T>, key: T -> nat) returns (sorted: seq<T>)
    ensures sorted == InsertAll(items, key)
    ensures SortedBy(sorted, key)
    ensures multiset(sorted) == multiset(items)
  {
    sorted := [];
    var i := 0;
    while i < |items|
      invariant 0 <= i <= |items|
      invariant sorted == InsertAll(items[..i], key)
    {
      assert items[..i + 1][..i] == items[..i];
      sorted := InsertBy(sorted, items[i], key);
      i := i + 1;
    }
    assert items[..i] == items;
    InsertAllStable(items, key);
  }

  // ---------------------------------------------------------------------
  // Distinct elements.

  /** No element appears twice. */
  predicate Distinct<T(==)>(ss: seq<T>)
  {
    forall i, j :: 0 <= i < j < |ss| ==> ss[i] != ss[j]
  }

  lemma {:induction false} DistinctCounts<T>(ss: seq<T>, x: T)
    requires Distinct(ss)
    ensures multiset(ss)[x] <= 1
  {
    if ss != [] {
      var last := ss[|ss| - 1];
      var init := ss[..|ss| - 1];
      assert ss == init + [last];
      assert Distinct(init);
      DistinctCounts(init, x);
      if x == last {
        assert x !in init;
      }
    }
  }

  lemma RepeatCounts<T>(ss: seq<T>, i: nat, j: nat)
    requires i < j < |ss| && ss[i] == ss[j]
    ensures multiset(ss)[ss[i]] >= 2
  {
    assert ss == ss[..j] + [ss[j]] + ss[j + 1..];
    assert ss[..j][i] == ss[i];
    assert ss[i] in multiset(ss[..j]);
  }

  lemma PermutationDistinct<T>(a: seq<T>, b: seq<T>)
    requires Distinct(a) && multiset(a) == multiset(b)
    ensures Distinct(b)
  {
    forall i, j | 0 <= i < j < |b|
      ensures b[i] != b[j]
    {
      if b[i] == b[j] {
        RepeatCounts(b, i, j);
        DistinctCounts(a, b[i]);
      }
    }
  }
}
