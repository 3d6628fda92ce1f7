/**
 The stable sorts the intermittent optimizer applies to slot lists: by price
 (ascending, or descending with ties kept in input order), by start time, and
 by (price, start) ascending or descending. A sort is specified as a sorted,
 stable permutation of its input.
 */
module Sorting {
  import opened Timeline

  /** The sort keys the intermittent optimizer uses. */
  datatype Order =
    | ByPrice(mode: Mode)          // key = price, descending when most expensive
    | ByStart                      // key = start
    | ByPriceThenStart(mode: Mode) // key = (price, start), descending when most expensive

  /** `a` may come before `b` in `order`; a total preorder. */
  predicate Le(order: Order, a: Slot, b: Slot) {
    match order
    case ByPrice(Cheapest) => a.price <= b.price
    case ByPrice(MostExpensive) => a.price >= b.price
    case ByStart => a.start <= b.start
    case ByPriceThenStart(Cheapest) => a.price < b.price || (a.price == b.price && a.start <= b.start)
    case ByPriceThenStart(MostExpensive) => a.price > b.price || (a.price == b.price && a.start >= b.start)
  }

  /** `a` and `b` have equal keys. */
  predicate SameKey(order: Order, a: Slot, b: Slot) {
    Le(order, a, b) && Le(order, b, a)
  }

  lemma LeTotal(order: Order, a: Slot, b: Slot)
    ensures Le(order, a, b) || Le(order, b, a)
  {
  }

  lemma LeTransitive(order: Order, a: Slot, b: Slot, c: Slot)
    requires Le(order, a, b) && Le(order, b, c)
    ensures Le(order, a, c)
  {
  }

  /** An element strictly after `b` is never in the same key class as `b`. */
  lemma KeyClassesSeparate(order: Order, a: Slot, b: Slot, y: Slot)
    requires !Le(order, a, b)
    ensures !(SameKey(order, a, y) && SameKey(order, b, y))
  {
    if SameKey(order, a, y) && SameKey(order, b, y) {
      LeTransitive(order, a, y, b);
    }
  }

  ghost predicate Sorted(order: Order, s: seq<Slot>) {
    forall i, j :: 0 <= i < j < |s| ==> Le(order, s[i], s[j])
  }

  /** The elements of `s` whose key equals that of `x`, in their order in `s`.
      A sort is stable when it keeps every such subsequence. */
  function KeyClass(order: Order, s: seq<Slot>, x: Slot): seq<Slot> {
    if |s| == 0 then []
    else (if SameKey(order, s[0], x) then [s[0]] else []) + KeyClass(order, s[1..], x)
  }

  /** Inserts `x` in front of the first element it may precede. */
  function Insert(order: Order, t: seq<Slot>, x: Slot): (r: seq<Slot>)
    ensures multiset(r) == multiset(t) + multiset{x}
  {
    if |t| == 0 then [x]
    else if Le(order, x, t[0]) then [x] + t
    else
      assert t == [t[0]] + t[1..];
      [t[0]] + Insert(order, t[1..], x)
  }

  lemma {:induction false} InsertSorted(order: Order, t: seq<Slot>, x: Slot)
    requires Sorted(order, t)
    ensures Sorted(order, Insert(order, t, x))
  {
    var r := Insert(order, t, x);
    if |t| == 0 {
    } else if Le(order, x, t[0]) {
      forall i, j | 0 <= i < j < |r| ensures Le(order, r[i], r[j]) {
        if i == 0 {
          LeTransitive(order, x, t[0], t[j - 1]);
        } else {
          assert r[i] == t[i - 1] && r[j] == t[j - 1];
        }
      }
    } else {
      var rest := Insert(order, t[1..], x);
      assert Sorted(order, t[1..]) by {
        forall i, j | 0 <= i < j < |t[1..]| ensures Le(order, t[1..][i], t[1..][j]) {
          assert t[1..][i] == t[i + 1] && t[1..][j] == t[j + 1];
        }
      }
      InsertSorted(order, t[1..], x);
      assert t == [t[0]] + t[1..];
      LeTotal(order, x, t[0]);
      forall i, j | 0 <= i < j < |r| ensures Le(order, r[i], r[j]) {
        if i == 0 {
          assert r[j] == rest[j - 1];
          assert r[j] in multiset(rest);
          if r[j] != x {
            assert r[j] in multiset(t[1..]);
            var k :| 0 <= k < |t[1..]| && t[1..][k] == r[j];
            assert t[k + 1] == r[j];
          }
        } else {
          assert r[i] == rest[i - 1] && r[j] == rest[j - 1];
        }
      }
    }
  }

  /** KeyClass of a list with a given head. */
  lemma KeyClassCons(order: Order, a: Slot, s: seq<Slot>, y: Slot)
    ensures KeyClass(order, [a] + s, y) == (if SameKey(order, a, y) then [a] else []) + KeyClass(order, s, y)
  {
    assert ([a] + s)[0] == a && ([a] + s)[1..] == s;
  }

  lemma {:induction false} InsertKeyClass(order: Order, t: seq<Slot>, x: Slot, y: Slot)
    ensures KeyClass(order, Insert(order, t, x), y) == (if SameKey(order, x, y) then [x] else []) + KeyClass(order, t, y)
  {
    if |t| == 0 {
      KeyClassCons(order, x, [], y);
      assert [x] + [] == [x];
    } else if Le(order, x, t[0]) {
      KeyClassCons(order, x, t, y);
    } else {
      var rest := Insert(order, t[1..], x);
      var hx := if SameKey(order, x, y) then [x] else [];
      var h0 := if SameKey(order, t[0], y) then [t[0]] else [];
      InsertKeyClass(order, t[1..], x, y);
      KeyClassCons(order, t[0], rest, y);
      KeyClassesSeparate(order, x, t[0], y);
      SwapHeads(h0, hx, KeyClass(order, t[1..], y));
    }
  }

  /** Two prefixes commute when one of them is empty. */
  lemma SwapHeads<T>(a: seq<T>, b: seq<T>, k: seq<T>)
    requires a == [] || b == []
    ensures a + (b + k) == b + (a + k)
  {
    if a == [] {
      assert a + (b + k) == b + k == b + (a + k);
    } else {
      assert a + (b + k) == a + k == b + (a + k);
    }
  }

  /** The stable sort of `s` by `order`. */
  function StableSort(order: Order, s: seq<Slot>): (r: seq<Slot>)
    ensures multiset(r) == multiset(s)
    ensures |r| == |s|
    ensures Sorted(order, r)
  {
    if |s| == 0 then []
    else
      var tail := StableSort(order, s[1..]);
      var r := Insert(order, tail, s[0]);
      InsertSorted(order, tail, s[0]);
      assert s == [s[0]] + s[1..];
      assert |r| == |multiset(r)|;
      r
  }

  /** The sort is stable: the elements of every key class keep their order. */
  lemma {:induction false} StableSortKeepsKeyClass(order: Order, s: seq<Slot>, y: Slot)
    ensures KeyClass(order, StableSort(order, s), y) == KeyClass(order, s, y)
  {
    if |s| > 0 {
      StableSortKeepsKeyClass(order, s[1..], y);
      InsertKeyClass(order, StableSort(order, s[1..]), s[0], y);
    }
  }

  /** The head of a sorted list may precede every element of it. */
  lemma SortedHeadFirst(order: Order, s: seq<Slot>, x: Slot)
    requires Sorted(order, s) && x in s
    ensures Le(order, s[0], x)
  {
    var k :| 0 <= k < |s| && s[k] == x;
    if k > 0 {
      assert Le(order, s[0], s[k]);
    } else {
      LeTotal(order, x, x);
    }
  }
}
