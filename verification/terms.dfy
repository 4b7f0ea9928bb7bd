/**
  The polynomial term record `Term(coefficient, power)` and the ordering
  `List.sort(Comparator.comparing(Term::power).reversed())` puts on a list of
  terms. `Comparator.comparing(key).reversed()` orders by a key, largest
  first; the key here is the power, compared as BigDecimal.compareTo compares,
  by numeric value. List.sort is stable, so terms with equal keys keep their
  relative order; it is modelled by a stable insertion sort over any key.
*/
module Terms {
  import opened Decimals

  /** One term coefficient · x^power of a polynomial. */
  datatype Term = Term(coefficient: Decimal, power: Decimal)

  /** The key `Term::power`, by numeric value. */
  function PowerValue(t: Term): real
  {
    Value(t.power)
  }

  /** Keys never increase from left to right. */
  predicate DescendingBy(s: seq<Term>, key: Term -> real)
  {
    forall i, j :: 0 <= i < j < |s| ==> key(s[i]) >= key(s[j])
  }

  /** Powers never increase from left to right. */
  predicate DescendingPowers(s: seq<Term>)
  {
    forall i, j :: 0 <= i < j < |s| ==> Value(s[i].power) >= Value(s[j].power)
  }

  /**
    Puts x in front of the first element whose key is not larger than its
    own, so that x stays before the (later) elements of equal key.
  */
  function Insert(x: Term, ys: seq<Term>, key: Term -> real): (r: seq<Term>)
    ensures |r| == |ys| + 1
  {
    if ys == [] then [x]
    else if key(ys[0]) <= key(x) then [x] + ys
    else [ys[0]] + Insert(x, ys[1..], key)
  }

  /** The list sorted by descending key, equal keys in their original order. */
  function SortDescending(s: seq<Term>, key: Term -> real): (r: seq<Term>)
    ensures |r| == |s|
  {
    if s == [] then [] else Insert(s[0], SortDescending(s[1..], key), key)
  }

  /** `terms.sort(Comparator.comparing(Term::power).reversed())`. */
  function SortByPowerDescending(s: seq<Term>): seq<Term>
  {
    SortDescending(s, PowerValue)
  }

  /** The terms of s whose key is v, in their order in s. */
  function WithKey(s: seq<Term>, key: Term -> real, v: real): seq<Term>
  {
    if s == [] then []
    else (if key(s[0]) == v then [s[0]] else []) + WithKey(s[1..], key, v)
  }

  /** The terms of s whose power has value v, in their order in s. */
  function WithPower(s: seq<Term>, v: real): seq<Term>
  {
    WithKey(s, PowerValue, v)
  }

  lemma {:induction false} InsertPermutes(x: Term, ys: seq<Term>, key: Term -> real)
    ensures multiset(Insert(x, ys, key)) == multiset(ys) + multiset{x}
  {
    if ys != [] && key(ys[0]) > key(x) {
      InsertPermutes(x, ys[1..], key);
      assert ys == [ys[0]] + ys[1..];
    }
  }

  /** No key in s exceeds b. */
  predicate KeysAtMost(s: seq<Term>, key: Term -> real, b: real)
  {
    forall j :: 0 <= j < |s| ==> key(s[j]) <= b
  }

  lemma ConsDescending(y: Term, rest: seq<Term>, key: Term -> real)
    requires DescendingBy(rest, key) && KeysAtMost(rest, key, key(y))
    ensures DescendingBy([y] + rest, key)
  {
    forall i, j | 0 <= i < j < |rest| + 1
      ensures key(([y] + rest)[i]) >= key(([y] + rest)[j])
    {
      assert ([y] + rest)[j] == rest[j - 1];
      if i > 0 {
        assert ([y] + rest)[i] == rest[i - 1];
      }
    }
  }

  lemma {:induction false} InsertAtMost(x: Term, ys: seq<Term>, key: Term -> real, b: real)
    requires KeysAtMost(ys, key, b) && key(x) <= b
    ensures KeysAtMost(Insert(x, ys, key), key, b)
  {
    if ys != [] && key(ys[0]) > key(x) {
      InsertAtMost(x, ys[1..], key, b);
      assert Insert(x, ys, key) == [ys[0]] + Insert(x, ys[1..], key);
    }
  }

  lemma {:induction false} InsertKeepsOrder(x: Term, ys: seq<Term>, key: Term -> real)
    requires DescendingBy(ys, key)
    ensures DescendingBy(Insert(x, ys, key), key)
  {
    if ys != [] {
      assert KeysAtMost(ys[1..], key, key(ys[0]));
      if key(ys[0]) > key(x) {
        InsertKeepsOrder(x, ys[1..], key);
        InsertAtMost(x, ys[1..], key, key(ys[0]));
        ConsDescending(ys[0], Insert(x, ys[1..], key), key);
      } else {
        ConsDescending(x, ys, key);
      }
    }
  }

  /** The result is ordered by descending key and is a permutation of the input. */
  lemma {:induction false} SortDescendingSorts(s: seq<Term>, key: Term -> real)
    ensures DescendingBy(SortDescending(s, key), key)
    ensures multiset(SortDescending(s, key)) == multiset(s)
  {
    if s != [] {
      SortDescendingSorts(s[1..], key);
      InsertKeepsOrder(s[0], SortDescending(s[1..], key), key);
      InsertPermutes(s[0], SortDescending(s[1..], key), key);
      assert s == [s[0]] + s[1..];
    }
  }

  /** The sorted terms are ordered by descending power and are a permutation of the input. */
  lemma SortByPowerDescendingSorts(s: seq<Term>)
    ensures DescendingPowers(SortByPowerDescending(s))
    ensures multiset(SortByPowerDescending(s)) == multiset(s)
  {
    SortDescendingSorts(s, PowerValue);
    var r := SortByPowerDescending(s);
    forall i, j | 0 <= i < j < |r|
      ensures Value(r[i].power) >= Value(r[j].power)
    {
      assert PowerValue(r[i]) >= PowerValue(r[j]);
    }
  }

  lemma {:induction false} WithKeyConcat(a: seq<Term>, b: seq<Term>, key: Term -> real, v: real)
    ensures WithKey(a + b, key, v) == WithKey(a, key, v) + WithKey(b, key, v)
  {
    if a != [] {
      assert (a + b)[1..] == a[1..] + b;
      WithKeyConcat(a[1..], b, key, v);
    } else {
      assert a + b == b;
    }
  }

  lemma {:induction false} InsertWithKey(x: Term, ys: seq<Term>, key: Term -> real, v: real)
    ensures WithKey(Insert(x, ys, key), key, v) == (if key(x) == v then [x] else []) + WithKey(ys, key, v)
  {
    if ys == [] {
    } else if key(ys[0]) <= key(x) {
      assert Insert(x, ys, key) == [x] + ys;
      WithKeyConcat([x], ys, key, v);
    } else {
      // ys[0] has a larger key than x, so at most one of them has key v
      var rest := Insert(x, ys[1..], key);
      assert Insert(x, ys, key) == [ys[0]] + rest;
      InsertWithKey(x, ys[1..], key, v);
      WithKeyConcat([ys[0]], rest, key, v);
      var head := if key(ys[0]) == v then [ys[0]] else [];
      assert WithKey(ys, key, v) == head + WithKey(ys[1..], key, v);
      assert WithKey([ys[0]], key, v) == head;
    }
  }

  /** Stability: the terms of any one key appear in the same order before and after sorting. */
  lemma {:induction false} SortDescendingStable(s: seq<Term>, key: Term -> real, v: real)
    ensures WithKey(SortDescending(s, key), key, v) == WithKey(s, key, v)
  {
    if s != [] {
      SortDescendingStable(s[1..], key, v);
      InsertWithKey(s[0], SortDescending(s[1..], key), key, v);
    }
  }

  /** The terms of any one power keep their relative order. */
  lemma SortByPowerDescendingStable(s: seq<Term>, v: real)
    ensures WithPower(SortByPowerDescending(s), v) == WithPower(s, v)
  {
    SortDescendingStable(s, PowerValue, v);
  }
}
