/**
 * The two list disciplines every driver script shares.
 *
 * - "Keep the newest per key": a dict filled by
 *   `if k not in d or rank(x) > rank(d[k]): d[k] = x`, read back in insertion
 *   order. Winner gives the value kept for one key, FirstKeys the dict's key
 *   order and KeptItems the list of values.
 * - Python's `sorted` with a key: a stable sort, SortBy; `reverse=True` is the
 *   same stable sort on the negated key.
 */
module Latest {
  import opened Common

  predicate Distinct<K(==)>(s: seq<K>) {
    forall i, j :: 0 <= i < j < |s| ==> s[i] != s[j]
  }

  // ---------------------------------------------------------------------
  // Newest per key
  // ---------------------------------------------------------------------

  /** The value stored under k after the dict pass over `items`. */
  function Winner<T, K(==)>(items: seq<T>, key: T -> K, rank: T -> int, k: K): Option<T>
    decreases |items|
  {
    if items == [] then None
    else
      var w := Winner(items[..|items| - 1], key, rank, k);
      var x := items[|items| - 1];
      if key(x) != k then w
      else if w.None? || rank(x) > rank(w.value) then Some(x)
      else w
  }

  /**
   * items[j] is the first item of key k whose rank is maximal among the items of key k:
   * nothing of key k ranks higher, and everything of key k before it ranks strictly lower.
   */
  ghost predicate KeptAt<T, K>(items: seq<T>, key: T -> K, rank: T -> int, k: K, j: int) {
    && 0 <= j < |items|
    && key(items[j]) == k
    && (forall i :: 0 <= i < |items| && key(items[i]) == k ==> rank(items[i]) <= rank(items[j]))
    && (forall i :: 0 <= i < j && key(items[i]) == k ==> rank(items[i]) < rank(items[j]))
  }

  /** The winner exists exactly for the keys that occur, and it is the first maximal item. */
  lemma {:induction false} WinnerIsFirstMaximal<T, K>(items: seq<T>, key: T -> K, rank: T -> int, k: K)
    ensures Winner(items, key, rank, k).None? <==> forall i :: 0 <= i < |items| ==> key(items[i]) != k
    ensures Winner(items, key, rank, k).Some? ==>
      exists j :: KeptAt(items, key, rank, k, j) && Winner(items, key, rank, k).value == items[j]
    decreases |items|
  {
    if items != [] {
      var n := |items| - 1;
      var p := items[..n];
      var x := items[n];
      WinnerIsFirstMaximal(p, key, rank, k);
      var w := Winner(p, key, rank, k);
      assert forall i :: 0 <= i < n ==> items[i] == p[i];
      if w.Some? {
        var j :| KeptAt(p, key, rank, k, j) && w.value == p[j];
        if key(x) != k || rank(x) <= rank(w.value) {
          assert KeptAt(items, key, rank, k, j);
        } else {
          assert KeptAt(items, key, rank, k, n);
        }
      } else if key(x) == k {
        assert KeptAt(items, key, rank, k, n);
      }
    }
  }

  /** At most one position satisfies KeptAt, so it pins the winner down. */
  lemma KeptAtUnique<T, K>(items: seq<T>, key: T -> K, rank: T -> int, k: K, j: int, j': int)
    requires KeptAt(items, key, rank, k, j) && KeptAt(items, key, rank, k, j')
    ensures j == j'
  {
  }

  /** The dict's keys in insertion order: each key where it first occurs. */
  function FirstKeys<T, K(==)>(items: seq<T>, key: T -> K): seq<K>
    decreases |items|
  {
    if items == [] then []
    else
      var ks := FirstKeys(items[..|items| - 1], key);
      var k := key(items[|items| - 1]);
      if k in ks then ks else ks + [k]
  }

  lemma {:induction false} FirstKeysSpec<T, K>(items: seq<T>, key: T -> K)
    ensures Distinct(FirstKeys(items, key))
    ensures forall i :: 0 <= i < |items| ==> key(items[i]) in FirstKeys(items, key)
    ensures forall k :: k in FirstKeys(items, key) ==> exists i :: 0 <= i < |items| && key(items[i]) == k
    decreases |items|
  {
    if items != [] {
      var n := |items| - 1;
      FirstKeysSpec(items[..n], key);
      assert forall i :: 0 <= i < n ==> items[i] == items[..n][i];
      forall i | 0 <= i < n ensures key(items[i]) in FirstKeys(items, key) {
        assert key(items[..n][i]) in FirstKeys(items[..n], key);
      }
    }
  }

  /** The winners of the given keys, in the order of the keys. */
  function WinnersOf<T, K(==)>(items: seq<T>, key: T -> K, rank: T -> int, ks: seq<K>): seq<T>
    decreases |ks|
  {
    if ks == [] then []
    else
      match Winner(items, key, rank, ks[0])
      case Some(w) => [w] + WinnersOf(items, key, rank, ks[1..])
      case None => WinnersOf(items, key, rank, ks[1..])
  }

  /** `list(d.values())` after the dict pass. */
  function KeptItems<T, K(==)>(items: seq<T>, key: T -> K, rank: T -> int): seq<T> {
    WinnersOf(items, key, rank, FirstKeys(items, key))
  }

  lemma {:induction false} WinnersOfAt<T, K>(items: seq<T>, key: T -> K, rank: T -> int, ks: seq<K>)
    requires forall k :: k in ks ==> Winner(items, key, rank, k).Some?
    ensures |WinnersOf(items, key, rank, ks)| == |ks|
    ensures forall i :: 0 <= i < |ks| ==> Some(WinnersOf(items, key, rank, ks)[i]) == Winner(items, key, rank, ks[i])
    decreases |ks|
  {
    if ks != [] {
      WinnersOfAt(items, key, rank, ks[1..]);
      assert forall i :: 1 <= i < |ks| ==> ks[i] == ks[1..][i - 1];
    }
  }

  /**
   * What the dict pass returns: one item per key, in first-occurrence order of the keys,
   * each the first item of its key with maximal rank.
   */
  lemma KeptItemsSpec<T, K>(items: seq<T>, key: T -> K, rank: T -> int)
    ensures var r := KeptItems(items, key, rank);
      && |r| == |FirstKeys(items, key)|
      && (forall i :: 0 <= i < |r| ==> key(r[i]) == FirstKeys(items, key)[i])
      && (forall i :: 0 <= i < |r| ==> exists j :: KeptAt(items, key, rank, key(r[i]), j) && r[i] == items[j])
      && (forall j :: 0 <= j < |items| ==> exists i :: 0 <= i < |r| && key(r[i]) == key(items[j]))
  {
    var ks := FirstKeys(items, key);
    FirstKeysSpec(items, key);
    forall k | k in ks ensures Winner(items, key, rank, k).Some? {
      WinnerIsFirstMaximal(items, key, rank, k);
    }
    WinnersOfAt(items, key, rank, ks);
    var r := KeptItems(items, key, rank);
    forall i | 0 <= i < |r|
      ensures key(r[i]) == ks[i]
      ensures exists j :: KeptAt(items, key, rank, key(r[i]), j) && r[i] == items[j]
    {
      WinnerIsFirstMaximal(items, key, rank, ks[i]);
    }
    forall j | 0 <= j < |items|
      ensures exists i :: 0 <= i < |r| && key(r[i]) == key(items[j])
    {
      assert key(items[j]) in ks;
      var i :| 0 <= i < |ks| && ks[i] == key(items[j]);
      assert key(r[i]) == key(items[j]);
    }
  }

  /** The i-th kept item is the first maximal item of its key. */
  lemma KeptItemAt<T, K>(items: seq<T>, key: T -> K, rank: T -> int, i: int)
    requires 0 <= i < |KeptItems(items, key, rank)|
    ensures exists j :: KeptAt(items, key, rank, key(KeptItems(items, key, rank)[i]), j) && KeptItems(items, key, rank)[i] == items[j]
  {
    KeptItemsSpec(items, key, rank);
  }

  /** The kept items are input items, one per key, and every key of the input is represented. */
  lemma KeptItemsShape<T, K>(items: seq<T>, key: T -> K, rank: T -> int)
    ensures var r := KeptItems(items, key, rank);
      && (forall i :: 0 <= i < |r| ==> r[i] in items)
      && (forall i, j :: 0 <= i < j < |r| ==> key(r[i]) != key(r[j]))
      && (forall x :: x in items ==> exists i :: 0 <= i < |r| && key(r[i]) == key(x))
  {
    var r := KeptItems(items, key, rank);
    var ks := FirstKeys(items, key);
    KeptKeys(items, key, rank);
    FirstKeysSpec(items, key);
    forall i | 0 <= i < |r| ensures r[i] in items {
      KeptItemAt(items, key, rank, i);
    }
    forall i, j | 0 <= i < j < |r| ensures key(r[i]) != key(r[j]) {
      assert key(r[i]) == ks[i] && key(r[j]) == ks[j];
    }
    forall x | x in items ensures exists i :: 0 <= i < |r| && key(r[i]) == key(x) {
      var m :| 0 <= m < |items| && items[m] == x;
      var i :| 0 <= i < |ks| && ks[i] == key(x);
      assert key(r[i]) == key(x);
    }
  }

  /** The kept items carry the first-occurrence keys, in that order. */
  lemma KeptKeys<T, K>(items: seq<T>, key: T -> K, rank: T -> int)
    ensures |KeptItems(items, key, rank)| == |FirstKeys(items, key)|
    ensures forall i :: 0 <= i < |KeptItems(items, key, rank)| ==> key(KeptItems(items, key, rank)[i]) == FirstKeys(items, key)[i]
  {
    KeptItemsSpec(items, key, rank);
  }

  /**
   * Two passes over one dict: after `a` and then `b`, the value kept for k is b's
   * winner only when a has none for k or b's winner ranks strictly higher.
   */
  lemma {:induction false} WinnerConcat<T, K>(a: seq<T>, b: seq<T>, key: T -> K, rank: T -> int, k: K)
    ensures var wa := Winner(a, key, rank, k);
      var wb := Winner(b, key, rank, k);
      Winner(a + b, key, rank, k) == if wb.Some? && (wa.None? || rank(wb.value) > rank(wa.value)) then wb else wa
    decreases |b|
  {
    if b == [] {
      assert a + b == a;
    } else {
      var n := |b| - 1;
      WinnerConcat(a, b[..n], key, rank, k);
      assert (a + b)[..|a + b| - 1] == a + b[..n];
      assert (a + b)[|a + b| - 1] == b[n];
    }
  }

  /**
   * The state of the dict pass after `items`: `order` is the dict's key order and
   * `d` its contents.
   */
  ghost predicate DictMatches<T, K(!new)>(items: seq<T>, key: T -> K, rank: T -> int, order: seq<K>, d: map<K, T>) {
    && order == FirstKeys(items, key)
    && (forall k :: k in d <==> k in order)
    && (forall k :: k in d ==> Winner(items, key, rank, k) == Some(d[k]))
  }

  /** One step of `if k not in d or rank(x) > rank(d[k]): d[k] = x` keeps the dict in step with the specification. */
  lemma DictStep<T, K(!new)>(items: seq<T>, key: T -> K, rank: T -> int, order: seq<K>, d: map<K, T>, x: T)
    requires DictMatches(items, key, rank, order, d)
    ensures var k := key(x);
      DictMatches(items + [x], key, rank,
        if k in d then order else order + [k],
        if k !in d || rank(x) > rank(d[k]) then d[k := x] else d)
  {
    var s := items + [x];
    assert s[..|s| - 1] == items;
    var k := key(x);
    FirstKeysSpec(items, key);
    if k !in d {
      WinnerIsFirstMaximal(items, key, rank, k);
    }
  }

  /** After the pass, `list(d.values())` is KeptItems. */
  lemma {:induction false} DictValues<T, K(!new)>(items: seq<T>, key: T -> K, rank: T -> int, order: seq<K>, d: map<K, T>)
    requires DictMatches(items, key, rank, order, d)
    ensures forall k :: k in order ==> k in d
    ensures seq(|order|, i requires 0 <= i < |order| && order[i] in d => d[order[i]]) == KeptItems(items, key, rank)
  {
    var vs := seq(|order|, i requires 0 <= i < |order| && order[i] in d => d[order[i]]);
    WinnersOfAt(items, key, rank, order);
    var r := KeptItems(items, key, rank);
    assert forall i :: 0 <= i < |order| ==> Some(r[i]) == Winner(items, key, rank, order[i]);
    assert |vs| == |r|;
    assert forall i :: 0 <= i < |order| ==> vs[i] == r[i];
  }

  /** `list(d.values())` of a dict filled by the one-pass loop: the kept items in first-appearance order. */
  method DictValuesInOrder<T, K(!new)>(ghost items: seq<T>, ghost key: T -> K, ghost rank: T -> int, order: seq<K>, d: map<K, T>)
    returns (vs: seq<T>)
    requires DictMatches(items, key, rank, order, d)
    ensures vs == KeptItems(items, key, rank)
  {
    DictValues(items, key, rank, order, d);
    vs := seq(|order|, i requires 0 <= i < |order| && order[i] in d => d[order[i]]);
  }

  // ---------------------------------------------------------------------
  // Stable sort
  // ---------------------------------------------------------------------

  /** Insert x before the first element that does not rank below it. */
  function InsertBy<T>(x: T, s: seq<T>, rank: T -> int): seq<T>
    decreases |s|
  {
    if s == [] then [x]
    else if rank(x) <= rank(s[0]) then [x] + s
    else [s[0]] + InsertBy(x, s[1..], rank)
  }

  /** `sorted(s, key=rank)`. */
  function SortBy<T>(s: seq<T>, rank: T -> int): seq<T>
    decreases |s|
  {
    if s == [] then [] else InsertBy(s[0], SortBy(s[1..], rank), rank)
  }

  ghost predicate SortedBy<T>(s: seq<T>, rank: T -> int) {
    forall i, j :: 0 <= i < j < |s| ==> rank(s[i]) <= rank(s[j])
  }

  /** The elements of s whose rank is v, in their order in s. */
  function RankIs<T>(s: seq<T>, rank: T -> int, v: int): seq<T>
    decreases |s|
  {
    if s == [] then []
    else (if rank(s[0]) == v then [s[0]] else []) + RankIs(s[1..], rank, v)
  }

  lemma {:induction false} InsertByPermutes<T>(x: T, s: seq<T>, rank: T -> int)
    ensures multiset(InsertBy(x, s, rank)) == multiset(s) + multiset{x}
    decreases |s|
  {
    if s != [] && rank(x) > rank(s[0]) {
      InsertByPermutes(x, s[1..], rank);
      assert s == [s[0]] + s[1..];
    }
  }

  lemma {:induction false} InsertByMembers<T>(x: T, s: seq<T>, rank: T -> int)
    ensures forall y :: y in InsertBy(x, s, rank) ==> y == x || y in s
    decreases |s|
  {
    if s != [] && rank(x) > rank(s[0]) {
      InsertByMembers(x, s[1..], rank);
    }
  }

  lemma {:induction false} InsertBySorted<T>(x: T, s: seq<T>, rank: T -> int)
    requires SortedBy(s, rank)
    ensures SortedBy(InsertBy(x, s, rank), rank)
    decreases |s|
  {
    if s != [] && rank(x) > rank(s[0]) {
      var t := InsertBy(x, s[1..], rank);
      InsertBySorted(x, s[1..], rank);
      InsertByMembers(x, s[1..], rank);
      assert forall y :: y in s[1..] ==> rank(s[0]) <= rank(y);
      assert forall j :: 0 <= j < |t| ==> rank(s[0]) <= rank(t[j]) by {
        forall j | 0 <= j < |t| ensures rank(s[0]) <= rank(t[j]) {
          assert t[j] in t;
        }
      }
      assert InsertBy(x, s, rank) == [s[0]] + t;
    } else if s != [] {
      assert InsertBy(x, s, rank) == [x] + s;
    }
  }

  lemma RankIsCons<T>(y: T, s: seq<T>, rank: T -> int, v: int)
    ensures RankIs([y] + s, rank, v) == (if rank(y) == v then [y] else []) + RankIs(s, rank, v)
  {
    assert ([y] + s)[0] == y;
    assert ([y] + s)[1..] == s;
  }

  /** Moving x past a lower-ranked element does not reorder the elements of any one rank. */
  lemma RankIsSwap<T>(a: T, x: T, u: seq<T>, w: seq<T>, rank: T -> int, v: int)
    requires rank(x) > rank(a)
    requires RankIs(u, rank, v) == RankIs([x] + w, rank, v)
    ensures RankIs([a] + u, rank, v) == RankIs([x] + ([a] + w), rank, v)
  {
    RankIsCons(a, u, rank, v);
    RankIsCons(x, w, rank, v);
    RankIsCons(x, [a] + w, rank, v);
    RankIsCons(a, w, rank, v);
  }

  lemma {:induction false} InsertByStable<T>(x: T, s: seq<T>, rank: T -> int, v: int)
    ensures RankIs(InsertBy(x, s, rank), rank, v) == RankIs([x] + s, rank, v)
    decreases |s|
  {
    if s != [] && rank(x) > rank(s[0]) {
      InsertByStable(x, s[1..], rank, v);
      assert s == [s[0]] + s[1..];
      RankIsSwap(s[0], x, InsertBy(x, s[1..], rank), s[1..], rank, v);
    }
  }

  lemma {:induction false} SortBySorted<T>(s: seq<T>, rank: T -> int)
    ensures SortedBy(SortBy(s, rank), rank)
    decreases |s|
  {
    if s != [] {
      SortBySorted(s[1..], rank);
      InsertBySorted(s[0], SortBy(s[1..], rank), rank);
    }
  }

  lemma {:induction false} SortByPermutes<T>(s: seq<T>, rank: T -> int)
    ensures multiset(SortBy(s, rank)) == multiset(s)
    decreases |s|
  {
    if s != [] {
      SortByPermutes(s[1..], rank);
      InsertByPermutes(s[0], SortBy(s[1..], rank), rank);
      assert s == [s[0]] + s[1..];
    }
  }

  lemma {:induction false} SortByStable<T>(s: seq<T>, rank: T -> int, v: int)
    ensures RankIs(SortBy(s, rank), rank, v) == RankIs(s, rank, v)
    decreases |s|
  {
    if s != [] {
      SortByStable(s[1..], rank, v);
      var t := SortBy(s[1..], rank);
      InsertByStable(s[0], t, rank, v);
      RankIsCons(s[0], t, rank, v);
      RankIsCons(s[0], s[1..], rank, v);
      assert s == [s[0]] + s[1..];
    }
  }

  /** The sort's result is ordered by rank, is a permutation of its input, and keeps equal-rank items in input order. */
  lemma SortBySpec<T>(s: seq<T>, rank: T -> int)
    ensures SortedBy(SortBy(s, rank), rank)
    ensures multiset(SortBy(s, rank)) == multiset(s)
    ensures forall v :: RankIs(SortBy(s, rank), rank, v) == RankIs(s, rank, v)
  {
    SortBySorted(s, rank);
    SortByPermutes(s, rank);
    forall v ensures RankIs(SortBy(s, rank), rank, v) == RankIs(s, rank, v) {
      SortByStable(s, rank, v);
    }
  }
}
