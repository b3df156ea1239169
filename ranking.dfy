/**
 * Python's `sorted(xs, key=key, reverse=True)` followed by the filter
 * `[x for x in ranked if key(x) > 0]`: a stable sort by descending key and
 * the positive-key head it leaves. The key is any function to integers.
 */
module Ranking {
  import opened Sequences

  /** Keys never increase along `s`. */
  ghost predicate SortedByKey<T>(s: seq<T>, key: T -> int) {
    forall i, j | 0 <= i < j < |s| :: key(s[i]) >= key(s[j])
  }

  /**
   * Places `x` just before the first element whose key is not above its
   * own, so that it stays ahead of the equal-key elements that follow it
   * in the input.
   */
  function Insert<T>(x: T, s: seq<T>, key: T -> int): (r: seq<T>)
    ensures |r| == |s| + 1
  {
    if s == [] || key(s[0]) <= key(x) then [x] + s
    else [s[0]] + Insert(x, s[1..], key)
  }

  /** The tail of a key-sorted sequence is key-sorted. */
  lemma SortedTail<T>(s: seq<T>, key: T -> int)
    requires s != [] && SortedByKey(s, key)
    ensures SortedByKey(s[1..], key)
  {
    forall i, j | 0 <= i < j < |s| - 1 ensures key(s[1..][i]) >= key(s[1..][j]) {
      assert s[1..][i] == s[i + 1] && s[1..][j] == s[j + 1];
    }
  }

  /** A key-sorted sequence stays key-sorted behind a head whose key bounds all of it. */
  lemma SortedCons<T>(x: T, s: seq<T>, key: T -> int)
    requires SortedByKey(s, key)
    requires forall j | 0 <= j < |s| :: key(x) >= key(s[j])
    ensures SortedByKey([x] + s, key)
  {
    var r := [x] + s;
    forall i, j | 0 <= i < j < |r| ensures key(r[i]) >= key(r[j]) {
      assert r[j] == s[j - 1];
      if i > 0 { assert r[i] == s[i - 1]; }
    }
  }

  /** Insertion adds `x` and nothing else. */
  lemma {:induction false} InsertMultiset<T>(x: T, s: seq<T>, key: T -> int)
    ensures multiset(Insert(x, s, key)) == multiset(s) + multiset{x}
    decreases |s|
  {
    if s != [] && key(s[0]) > key(x) {
      InsertMultiset(x, s[1..], key);
      assert s == [s[0]] + s[1..];
    }
  }

  /** Insertion keeps a key-sorted sequence key-sorted. */
  lemma {:induction false} InsertKeepsSorted<T>(x: T, s: seq<T>, key: T -> int)
    requires SortedByKey(s, key)
    ensures SortedByKey(Insert(x, s, key), key)
    decreases |s|
  {
    if s == [] || key(s[0]) <= key(x) {
      SortedCons(x, s, key);
    } else {
      var rest := Insert(x, s[1..], key);
      SortedTail(s, key);
      InsertKeepsSorted(x, s[1..], key);
      InsertMultiset(x, s[1..], key);
      forall j | 0 <= j < |rest| ensures key(s[0]) >= key(rest[j]) {
        assert rest[j] in multiset(rest);
        if rest[j] != x {
          assert rest[j] in multiset(s[1..]);
          var k :| 0 <= k < |s| - 1 && s[1..][k] == rest[j];
          assert s[k + 1] == rest[j];
        }
      }
      SortedCons(s[0], rest, key);
    }
  }

  /**
   * The stable descending sort: a rearrangement of the input whose keys
   * never increase.
   */
  function SortDescending<T>(s: seq<T>, key: T -> int): (r: seq<T>)
    ensures multiset(r) == multiset(s)
    ensures forall y | y in r :: y in s
    ensures SortedByKey(r, key)
  {
    if s == [] then []
    else
      var rest := SortDescending(s[1..], key);
      var r := Insert(s[0], rest, key);
      InsertMultiset(s[0], rest, key);
      InsertKeepsSorted(s[0], rest, key);
      assert s == [s[0]] + s[1..];
      SameMultisetMembers(r, s);
      r
  }

  lemma SameMultisetMembers<T>(r: seq<T>, s: seq<T>)
    requires multiset(r) == multiset(s)
    ensures forall y | y in r :: y in s
  {
    forall y | y in r ensures y in s {
      assert y in multiset(r);
    }
  }

  /** The elements of `s` whose key is `k`, in their order in `s`. */
  function KeyClass<T>(s: seq<T>, key: T -> int, k: int): seq<T> {
    if s == [] then []
    else (if key(s[0]) == k then [s[0]] else []) + KeyClass(s[1..], key, k)
  }

  lemma KeyClassCons<T>(x: T, s: seq<T>, key: T -> int, k: int)
    ensures KeyClass([x] + s, key, k) == (if key(x) == k then [x] else []) + KeyClass(s, key, k)
  {
    assert ([x] + s)[1..] == s;
  }

  lemma {:induction false} InsertKeyClass<T>(x: T, s: seq<T>, key: T -> int, k: int)
    ensures KeyClass(Insert(x, s, key), key, k)
         == if key(x) == k then [x] + KeyClass(s, key, k) else KeyClass(s, key, k)
    decreases |s|
  {
    if s == [] || key(s[0]) <= key(x) {
      KeyClassCons(x, s, key, k);
    } else {
      var rest := Insert(x, s[1..], key);
      InsertKeyClass(x, s[1..], key, k);
      KeyClassCons(s[0], rest, key, k);
      assert s == [s[0]] + s[1..];
      KeyClassCons(s[0], s[1..], key, k);
      if key(x) == k {
        assert key(s[0]) != k;
      }
    }
  }

  /** Stability: among elements of equal key the sort keeps input order. */
  lemma {:induction false} SortKeepsInputOrder<T>(s: seq<T>, key: T -> int, k: int)
    ensures KeyClass(SortDescending(s, key), key, k) == KeyClass(s, key, k)
    decreases |s|
  {
    if s != [] {
      SortKeepsInputOrder(s[1..], key, k);
      InsertKeyClass(s[0], SortDescending(s[1..], key), key, k);
    }
  }

  lemma {:induction false} KeyClassMembers<T>(s: seq<T>, key: T -> int, k: int, y: T)
    ensures y in KeyClass(s, key, k) <==> y in s && key(y) == k
    decreases |s|
  {
    if s != [] {
      KeyClassMembers(s[1..], key, k, y);
      assert s == [s[0]] + s[1..];
    }
  }

  lemma KeyClassOfHead<T>(s: seq<T>, key: T -> int)
    requires s != []
    ensures KeyClass(s, key, key(s[0])) != []
  {
  }

  /** Two key-sorted sequences whose key classes agree class by class are equal. */
  lemma {:induction false} SortedClassesDetermine<T>(a: seq<T>, b: seq<T>, key: T -> int)
    requires SortedByKey(a, key) && SortedByKey(b, key)
    requires forall k :: KeyClass(a, key, k) == KeyClass(b, key, k)
    ensures a == b
    decreases |a| + |b|
  {
    if a == [] && b == [] {
    } else if a == [] {
      // b's first element has a key class that a lacks
      KeyClassOfHead(b, key);
      assert false;
    } else if b == [] {
      KeyClassOfHead(a, key);
      assert false;
    } else {
      SortedHeadsAgree(a, b, key);
      TailClassesAgree(a, b, key);
      SortedTail(a, key);
      SortedTail(b, key);
      SortedClassesDetermine(a[1..], b[1..], key);
      assert a == [a[0]] + a[1..];
      assert b == [b[0]] + b[1..];
    }
  }

  /** Key-sorted sequences with the same key classes start with the same element. */
  lemma SortedHeadsAgree<T>(a: seq<T>, b: seq<T>, key: T -> int)
    requires a != [] && b != []
    requires SortedByKey(a, key) && SortedByKey(b, key)
    requires forall k :: KeyClass(a, key, k) == KeyClass(b, key, k)
    ensures a[0] == b[0]
  {
    var ka, kb := key(a[0]), key(b[0]);
    KeyClassMembers(b, key, ka, a[0]);
    KeyClassMembers(a, key, kb, b[0]);
    assert a[0] in KeyClass(a, key, ka);
    assert b[0] in KeyClass(b, key, kb);
    assert ka <= kb by {
      var j :| 0 <= j < |b| && b[j] == a[0];
    }
    assert kb <= ka by {
      var j :| 0 <= j < |a| && a[j] == b[0];
    }
    assert KeyClass(a, key, ka) == [a[0]] + KeyClass(a[1..], key, ka);
    assert KeyClass(b, key, ka) == [b[0]] + KeyClass(b[1..], key, ka);
    assert a[0] == KeyClass(a, key, ka)[0] == KeyClass(b, key, ka)[0] == b[0];
  }

  /** Removing a common head keeps the key classes equal. */
  lemma TailClassesAgree<T>(a: seq<T>, b: seq<T>, key: T -> int)
    requires a != [] && b != [] && a[0] == b[0]
    requires forall k :: KeyClass(a, key, k) == KeyClass(b, key, k)
    ensures forall k :: KeyClass(a[1..], key, k) == KeyClass(b[1..], key, k)
  {
    forall k ensures KeyClass(a[1..], key, k) == KeyClass(b[1..], key, k) {
      var head := if key(a[0]) == k then [a[0]] else [];
      assert KeyClass(a, key, k) == head + KeyClass(a[1..], key, k);
      assert KeyClass(b, key, k) == head + KeyClass(b[1..], key, k);
      assert KeyClass(a[1..], key, k) == KeyClass(a, key, k)[|head|..];
    }
  }

  /**
   * The sort's result is the only key-sorted arrangement that keeps input
   * order among equal keys: any sequence with both properties is it.
   */
  lemma SortIsUnique<T>(s: seq<T>, key: T -> int, r: seq<T>)
    requires SortedByKey(r, key)
    requires forall k :: KeyClass(r, key, k) == KeyClass(s, key, k)
    ensures r == SortDescending(s, key)
  {
    forall k ensures KeyClass(r, key, k) == KeyClass(SortDescending(s, key), key, k) {
      SortKeepsInputOrder(s, key, k);
    }
    SortedClassesDetermine(r, SortDescending(s, key), key);
  }

  /** `[x for x in s if key(x) > 0]`. */
  function KeepPositive<T>(s: seq<T>, key: T -> int): (r: seq<T>)
    ensures |r| <= |s|
  {
    if s == [] then []
    else if key(s[0]) > 0 then [s[0]] + KeepPositive(s[1..], key)
    else KeepPositive(s[1..], key)
  }

  /** The filter keeps only positive-key elements of its input. */
  lemma {:induction false} KeepPositiveSpec<T>(s: seq<T>, key: T -> int)
    ensures forall i | 0 <= i < |KeepPositive(s, key)| :: key(KeepPositive(s, key)[i]) > 0 && KeepPositive(s, key)[i] in s
    decreases |s|
  {
    if s != [] {
      KeepPositiveSpec(s[1..], key);
      var r, rest := KeepPositive(s, key), KeepPositive(s[1..], key);
      forall i | 0 <= i < |r| ensures key(r[i]) > 0 && r[i] in s {
        if key(s[0]) > 0 && i == 0 {
        } else {
          var j := if key(s[0]) > 0 then i - 1 else i;
          assert r[i] == rest[j];
          assert rest[j] in s[1..];
        }
      }
    }
  }

  /** On a key-sorted sequence the positive elements form its head and the rest have key 0 or less. */
  lemma {:induction false} KeepPositiveOfSorted<T>(s: seq<T>, key: T -> int)
    requires SortedByKey(s, key)
    ensures KeepPositive(s, key) == s[..|KeepPositive(s, key)|]
    ensures forall i | |KeepPositive(s, key)| <= i < |s| :: key(s[i]) <= 0
    decreases |s|
  {
    if s != [] {
      SortedTail(s, key);
      KeepPositiveOfSorted(s[1..], key);
      if key(s[0]) <= 0 {
        assert forall i | 0 < i < |s| :: key(s[i]) <= 0;
        KeepPositiveOfNonPositive(s[1..], key);
      } else {
        var n := |KeepPositive(s[1..], key)|;
        assert s[..n + 1] == [s[0]] + s[1..][..n];
        forall i | n + 1 <= i < |s| ensures key(s[i]) <= 0 {
          assert s[i] == s[1..][i - 1];
        }
      }
    }
  }

  lemma {:induction false} KeepPositiveOfNonPositive<T>(s: seq<T>, key: T -> int)
    requires forall i | 0 <= i < |s| :: key(s[i]) <= 0
    ensures KeepPositive(s, key) == []
    decreases |s|
  {
    if s != [] {
      KeepPositiveOfNonPositive(s[1..], key);
    }
  }

  lemma {:induction false} InsertKeepPositiveLength<T>(x: T, s: seq<T>, key: T -> int)
    ensures |KeepPositive(Insert(x, s, key), key)| == |KeepPositive(s, key)| + if key(x) > 0 then 1 else 0
    decreases |s|
  {
    var r := Insert(x, s, key);
    if s == [] || key(s[0]) <= key(x) {
      assert r[0] == x && r[1..] == s;
    } else {
      assert r[0] == s[0] && r[1..] == Insert(x, s[1..], key);
      InsertKeepPositiveLength(x, s[1..], key);
    }
  }

  /** Sorting neither adds nor loses positive-key elements. */
  lemma {:induction false} SortKeepsPositiveCount<T>(s: seq<T>, key: T -> int)
    ensures |KeepPositive(SortDescending(s, key), key)| == |KeepPositive(s, key)|
    decreases |s|
  {
    if s != [] {
      SortKeepsPositiveCount(s[1..], key);
      InsertKeepPositiveLength(s[0], SortDescending(s[1..], key), key);
    }
  }

  /**
   * `[x for x in sorted(s, key=key, reverse=True) if key(x) > 0][:limit]`:
   * the head of the stable descending order, as long as the number of
   * positive-key elements allows up to `limit`.
   */
  function TopPositive<T>(s: seq<T>, key: T -> int, limit: nat): (r: seq<T>)
    ensures var p := |KeepPositive(s, key)|; |r| == if p < limit then p else limit
    ensures forall i | 0 <= i < |r| :: r[i] in s && key(r[i]) > 0
    ensures SortedByKey(r, key)
    ensures r <= SortDescending(s, key)
  {
    var sorted := SortDescending(s, key);
    var positive := KeepPositive(sorted, key);
    KeepPositiveOfSorted(sorted, key);
    SortKeepsPositiveCount(s, key);
    KeepPositiveSpec(sorted, key);
    var r := Take(positive, limit);
    PrefixOfSorted(r, positive, sorted, key);
    r
  }

  /** A prefix of a prefix of a key-sorted sequence is a key-sorted prefix of it. */
  lemma PrefixOfSorted<T>(r: seq<T>, p: seq<T>, s: seq<T>, key: T -> int)
    requires r <= p && p <= s && SortedByKey(s, key)
    ensures r <= s && SortedByKey(r, key)
    ensures forall i | 0 <= i < |r| :: r[i] == p[i] && r[i] in s
  {
    forall i | 0 <= i < |r| ensures r[i] == p[i] == s[i] {
    }
  }

  lemma {:induction false} KeyClassOfPrefix<T>(a: seq<T>, b: seq<T>, key: T -> int, k: int)
    requires a <= b
    ensures KeyClass(a, key, k) <= KeyClass(b, key, k)
    decreases |a|
  {
    if a != [] {
      assert a[1..] <= b[1..];
      KeyClassOfPrefix(a[1..], b[1..], key, k);
    }
  }

  /** Among equal keys the selection is a head of the input's elements with that key, in input order. */
  lemma TopPositiveKeepsInputOrder<T>(s: seq<T>, key: T -> int, limit: nat, k: int)
    ensures KeyClass(TopPositive(s, key, limit), key, k) <= KeyClass(s, key, k)
  {
    KeyClassOfPrefix(TopPositive(s, key, limit), SortDescending(s, key), key, k);
    SortKeepsInputOrder(s, key, k);
  }

  /**
   * Nothing better is skipped: a positive-key element is left out only when
   * all `limit` places are taken by elements with a key at least as high.
   */
  lemma TopPositiveSkipsNothingBetter<T>(s: seq<T>, key: T -> int, limit: nat, v: T)
    requires v in s && key(v) > 0 && v !in TopPositive(s, key, limit)
    ensures |TopPositive(s, key, limit)| == limit
    ensures forall i | 0 <= i < limit :: key(TopPositive(s, key, limit)[i]) >= key(v)
  {
    var sorted := SortDescending(s, key);
    var r := TopPositive(s, key, limit);
    KeepPositiveOfSorted(sorted, key);
    SortKeepsPositiveCount(s, key);
    var n := |KeepPositive(sorted, key)|;
    assert v in multiset(s);
    assert v in sorted;
    var p :| 0 <= p < |sorted| && sorted[p] == v;
    assert p < n;
    assert forall i | 0 <= i < |r| :: r[i] == sorted[i];
    assert p >= |r|;
  }
}
