/** Sums, counts and sorting of sequences, in the sense of Rust's iterator
    adaptors and the stable `slice::sort_by_key`. */
module SeqUtil {

  function Sum(s: seq<int>): int {
    if s == [] then 0 else Sum(s[..|s| - 1]) + s[|s| - 1]
  }

  /** One more element of a prefix adds it to the sum. */
  lemma SumPrefix(s: seq<int>, k: nat)
    requires k < |s|
    ensures Sum(s[..k + 1]) == Sum(s[..k]) + s[k]
  {
    assert s[..k + 1][..k] == s[..k];
  }

  lemma {:induction false} SumAppend(a: seq<int>, b: seq<int>)
    ensures Sum(a + b) == Sum(a) + Sum(b)
    decreases |b|
  {
    if b == [] {
      assert a + b == a;
    } else {
      assert (a + b)[..|a + b| - 1] == a + b[..|b| - 1];
      SumAppend(a, b[..|b| - 1]);
    }
  }

  function Product(s: seq<int>): int {
    if s == [] then 1 else Product(s[..|s| - 1]) * s[|s| - 1]
  }

  /** Number of occurrences of `x` in `s`. */
  function Count<T(==)>(s: seq<T>, x: T): (n: nat)
    ensures n == multiset(s)[x]
  {
    if s == [] then 0
    else
      assert s == s[..|s| - 1] + [s[|s| - 1]];
      Count(s[..|s| - 1], x) + (if s[|s| - 1] == x then 1 else 0)
  }

  /** The elements of `s` whose key is `k`, in their order in `s`. */
  function KeyClass<T>(s: seq<T>, key: T -> int, k: int): (r: seq<T>)
    ensures |r| <= |s|
  {
    if s == [] then []
    else (if key(s[0]) == k then [s[0]] else []) + KeyClass(s[1..], key, k)
  }

  lemma {:induction false} KeyClassAppend<T>(a: seq<T>, b: seq<T>, key: T -> int, k: int)
    ensures KeyClass(a + b, key, k) == KeyClass(a, key, k) + KeyClass(b, key, k)
  {
    if a == [] {
      assert a + b == b;
    } else {
      var head := if key(a[0]) == k then [a[0]] else [];
      assert (a + b)[0] == a[0];
      assert (a + b)[1..] == a[1..] + b;
      assert KeyClass(a + b, key, k) == head + KeyClass(a[1..] + b, key, k);
      KeyClassAppend(a[1..], b, key, k);
      assert KeyClass(a, key, k) == head + KeyClass(a[1..], key, k);
    }
  }

  predicate SortedBy<T>(s: seq<T>, key: T -> int) {
    forall i, j :: 0 <= i < j < |s| ==> key(s[i]) <= key(s[j])
  }

  /** Inserts `x` after every element whose key is at most `key(x)`. */
  function InsertByKey<T>(x: T, s: seq<T>, key: T -> int): (r: seq<T>)
    ensures |r| == |s| + 1
  {
    if s == [] then [x]
    else if key(x) < key(s[0]) then [x] + s
    else [s[0]] + InsertByKey(x, s[1..], key)
  }

  /** A stable sort by key, the contract of `slice::sort_by_key` and of
      `slice::sort_by` with a key comparison. */
  function SortByKey<T>(s: seq<T>, key: T -> int): (r: seq<T>)
    ensures |r| == |s|
  {
    if s == [] then [] else InsertByKey(s[|s| - 1], SortByKey(s[..|s| - 1], key), key)
  }

  lemma {:induction false} InsertLowerBound<T>(x: T, s: seq<T>, key: T -> int, lo: int)
    requires lo <= key(x) && forall i :: 0 <= i < |s| ==> lo <= key(s[i])
    ensures forall i :: 0 <= i < |InsertByKey(x, s, key)| ==> lo <= key(InsertByKey(x, s, key)[i])
  {
    if s != [] && key(x) >= key(s[0]) {
      InsertLowerBound(x, s[1..], key, lo);
      assert InsertByKey(x, s, key) == [s[0]] + InsertByKey(x, s[1..], key);
    }
  }

  lemma {:induction false} InsertSorted<T>(x: T, s: seq<T>, key: T -> int)
    requires SortedBy(s, key)
    ensures SortedBy(InsertByKey(x, s, key), key)
  {
    if s != [] && key(x) >= key(s[0]) {
      InsertSorted(x, s[1..], key);
      InsertLowerBound(x, s[1..], key, key(s[0]));
      assert InsertByKey(x, s, key) == [s[0]] + InsertByKey(x, s[1..], key);
    }
  }

  lemma {:induction false} InsertMultiset<T>(x: T, s: seq<T>, key: T -> int)
    ensures multiset(InsertByKey(x, s, key)) == multiset(s) + multiset{x}
  {
    if s != [] && key(x) >= key(s[0]) {
      InsertMultiset(x, s[1..], key);
      assert s == [s[0]] + s[1..];
    }
  }

  /** Elements with keys above `k` do not belong to the key class `k`. */
  lemma {:induction false} KeyClassAbove<T>(s: seq<T>, key: T -> int, k: int)
    requires forall i :: 0 <= i < |s| ==> key(s[i]) > k
    ensures KeyClass(s, key, k) == []
  {
    if s != [] {
      KeyClassAbove(s[1..], key, k);
    }
  }

  /** Inserting `x` appends it to its key class and leaves the other classes alone. */
  lemma {:induction false} InsertKeyClass<T>(x: T, s: seq<T>, key: T -> int, k: int)
    requires SortedBy(s, key)
    ensures KeyClass(InsertByKey(x, s, key), key, k)
         == KeyClass(s, key, k) + (if key(x) == k then [x] else [])
  {
    if s == [] {
      KeyClassCons(x, [], key, k);
      assert [x] + [] == [x];
    } else if key(x) < key(s[0]) {
      if key(x) == k {
        assert forall i :: 0 <= i < |s| ==> key(s[i]) >= key(s[0]);
        KeyClassAbove(s, key, k);
      }
      assert InsertByKey(x, s, key) == [x] + s;
      KeyClassCons(x, s, key, k);
    } else {
      assert SortedBy(s[1..], key);
      InsertKeyClass(x, s[1..], key, k);
      KeyClassCons(s[0], InsertByKey(x, s[1..], key), key, k);
      KeyClassCons(s[0], s[1..], key, k);
      assert InsertByKey(x, s, key) == [s[0]] + InsertByKey(x, s[1..], key);
      assert s == [s[0]] + s[1..];
      var h0, mid := if key(s[0]) == k then [s[0]] else [], KeyClass(s[1..], key, k);
      var t := if key(x) == k then [x] else [];
      assert KeyClass(InsertByKey(x, s, key), key, k) == h0 + (mid + t);
      AppendAssoc(h0, mid, t);
    }
  }

  lemma AppendAssoc<T>(a: seq<T>, b: seq<T>, c: seq<T>)
    ensures a + (b + c) == (a + b) + c
  {
  }

  lemma KeyClassCons<T>(a: T, rest: seq<T>, key: T -> int, k: int)
    ensures KeyClass([a] + rest, key, k) == (if key(a) == k then [a] else []) + KeyClass(rest, key, k)
  {
    assert ([a] + rest)[1..] == rest;
  }

  /** The sort orders by key. */
  lemma {:induction false} SortSorted<T>(s: seq<T>, key: T -> int)
    ensures SortedBy(SortByKey(s, key), key)
  {
    if s != [] {
      SortSorted(s[..|s| - 1], key);
      InsertSorted(s[|s| - 1], SortByKey(s[..|s| - 1], key), key);
    }
  }

  /** The sort is a permutation. */
  lemma {:induction false} SortMultiset<T>(s: seq<T>, key: T -> int)
    ensures multiset(SortByKey(s, key)) == multiset(s)
  {
    if s != [] {
      var init, last := s[..|s| - 1], s[|s| - 1];
      assert s == init + [last];
      assert multiset(s) == multiset(init) + multiset{last};
      SortMultiset(init, key);
      InsertMultiset(last, SortByKey(init, key), key);
    }
  }

  /** The sort is stable: elements with equal keys keep their relative order. */
  lemma {:induction false} SortStable<T>(s: seq<T>, key: T -> int, k: int)
    ensures KeyClass(SortByKey(s, key), key, k) == KeyClass(s, key, k)
  {
    if s != [] {
      var init := s[..|s| - 1];
      SortStable(init, key, k);
      SortSorted(init, key);
      InsertKeyClass(s[|s| - 1], SortByKey(init, key), key, k);
      assert s == init + [s[|s| - 1]];
      KeyClassAppend(init, [s[|s| - 1]], key, k);
    }
  }

  function Identity(x: int): int { x }

  /** Sorting integers ascending (`slice::sort`). */
  function SortInts(s: seq<int>): (r: seq<int>)
    ensures |r| == |s| && multiset(r) == multiset(s) && Ascending(r)
  {
    SortMultiset(s, Identity);
    SortSorted(s, Identity);
    SortByKey(s, Identity)
  }

  predicate Ascending(s: seq<int>) {
    forall i, j :: 0 <= i < j < |s| ==> s[i] <= s[j]
  }

  lemma SortedHeadIsMin(a: seq<int>, x: int)
    requires Ascending(a) && x in multiset(a)
    ensures a[0] <= x && Ascending(a[1..])
  {
    var i :| 0 <= i < |a| && a[i] == x;
  }

  /** Two ascending sequences with the same elements are equal. */
  lemma {:induction false} SortedUnique(a: seq<int>, b: seq<int>)
    requires Ascending(a) && Ascending(b)
    requires multiset(a) == multiset(b)
    ensures a == b
  {
    if a == [] || b == [] {
      assert |multiset(a)| == |a| && |multiset(b)| == |b|;
    } else {
      assert b[0] in multiset(b) && a[0] in multiset(a);
      SortedHeadIsMin(a, b[0]);
      SortedHeadIsMin(b, a[0]);
      assert a[0] == b[0];
      TailMultiset(a);
      TailMultiset(b);
      assert multiset(a[1..]) == multiset(b[1..]);
      SortedUnique(a[1..], b[1..]);
      assert a == [a[0]] + a[1..] && b == [b[0]] + b[1..];
    }
  }

  lemma TailMultiset<T>(a: seq<T>)
    requires |a| >= 1
    ensures multiset(a[1..]) == multiset(a) - multiset{a[0]}
  {
    assert a == [a[0]] + a[1..];
  }

  /** Index pairs (i, j) with i < j < n in the order of two nested loops,
      `for i in 0..rows { for j in i + 1..n { … } }`. */
  function PairRow(i: nat, n: nat): (r: seq<(nat, nat)>)
    ensures |r| == if i < n then n - i - 1 else 0
    ensures forall k :: 0 <= k < |r| ==> r[k] == (i, i + 1 + k)
  {
    if i + 1 >= n then [] else seq(n - i - 1, k requires 0 <= k < n - i - 1 => (i, i + 1 + k))
  }

  function PairRows(rows: nat, n: nat): (r: seq<(nat, nat)>)
    ensures forall k :: 0 <= k < |r| ==> r[k].0 < rows && r[k].0 < r[k].1 < n
  {
    if rows == 0 then [] else PairRows(rows - 1, n) + PairRow(rows - 1, n)
  }

  /** All index pairs i < j < n, row by row. */
  function AllPairs(n: nat): (r: seq<(nat, nat)>)
    ensures forall k :: 0 <= k < |r| ==> r[k].0 < r[k].1 < n
  {
    if n == 0 then [] else PairRows(n - 1, n)
  }

  lemma {:induction false} PairRowsMembers(rows: nat, n: nat)
    ensures forall p: (nat, nat) :: p in PairRows(rows, n) <==> p.0 < rows && p.0 < p.1 < n
  {
    if rows > 0 {
      var prev, row := PairRows(rows - 1, n), PairRow(rows - 1, n);
      assert PairRows(rows, n) == prev + row;
      PairRowsMembers(rows - 1, n);
      forall p: (nat, nat) | p.0 < rows && p.0 < p.1 < n ensures p in PairRows(rows, n) {
        if p.0 < rows - 1 {
          assert p in prev;
        } else {
          assert row[p.1 - rows] == p;
        }
      }
    }
  }

  lemma PairRowMembers(i: nat, n: nat)
    ensures forall p: (nat, nat) :: p in PairRow(i, n) <==> p.0 == i && i < p.1 < n
  {
    forall p: (nat, nat) | p.0 == i && i < p.1 < n ensures p in PairRow(i, n) {
      assert PairRow(i, n)[p.1 - i - 1] == p;
    }
  }

  /** Lexicographic order on index pairs. */
  predicate LexBefore(p: (nat, nat), q: (nat, nat)) {
    p.0 < q.0 || (p.0 == q.0 && p.1 < q.1)
  }

  /** Within the rows, pairs strictly increase in lexicographic order, so none repeats. */
  lemma {:induction false} PairRowsOrdered(rows: nat, n: nat)
    ensures forall a, b :: 0 <= a < b < |PairRows(rows, n)| ==> LexBefore(PairRows(rows, n)[a], PairRows(rows, n)[b])
  {
    if rows > 0 {
      PairRowsOrdered(rows - 1, n);
      var prev, row := PairRows(rows - 1, n), PairRow(rows - 1, n);
      var all := PairRows(rows, n);
      assert all == prev + row;
      forall a, b | 0 <= a < b < |all| ensures LexBefore(all[a], all[b]) {
        if b < |prev| {
          assert all[a] == prev[a] && all[b] == prev[b];
        } else if a < |prev| {
          assert all[a] == prev[a] && all[b] == row[b - |prev|];
        } else {
          assert all[a] == row[a - |prev|] && all[b] == row[b - |prev|];
        }
      }
    }
  }

  lemma {:induction false} PairRowsCount(rows: nat, n: nat)
    requires rows <= n
    ensures 2 * |PairRows(rows, n)| == rows * (2 * n - rows - 1)
  {
    if rows > 0 {
      PairRowsCount(rows - 1, n);
      var r := rows - 1;
      assert |PairRows(rows, n)| == |PairRows(r, n)| + (n - rows);
      assert (r + 1) * (2 * n - r - 2) == r * (2 * n - r - 1) + 2 * (n - rows);
    }
  }

  /** The nested loops visit each pair i < j < n, and no other. */
  lemma AllPairsMembers(n: nat)
    ensures forall p: (nat, nat) :: p in AllPairs(n) <==> p.0 < p.1 < n
  {
    if n > 0 {
      PairRowsMembers(n - 1, n);
    }
  }

  /** There are n(n-1)/2 of them. */
  lemma AllPairsCount(n: nat)
    ensures 2 * |AllPairs(n)| == n * (n - 1)
  {
    if n > 0 {
      PairRowsCount(n - 1, n);
      assert 2 * n - (n - 1) - 1 == n;
    }
  }

  /** None is visited twice. */
  lemma AllPairsDistinct(n: nat)
    ensures forall a, b :: 0 <= a < b < |AllPairs(n)| ==> AllPairs(n)[a] != AllPairs(n)[b]
  {
    if n > 0 {
      PairRowsOrdered(n - 1, n);
    }
  }

  /** The elements at the index pairs. */
  function PairsAt<T>(s: seq<T>, idx: seq<(nat, nat)>): (r: seq<(T, T)>)
    requires forall k :: 0 <= k < |idx| ==> idx[k].0 < |s| && idx[k].1 < |s|
    ensures |r| == |idx|
    ensures forall k :: 0 <= k < |idx| ==> r[k] == (s[idx[k].0], s[idx[k].1])
  {
    seq(|idx|, k requires 0 <= k < |idx| => (s[idx[k].0], s[idx[k].1]))
  }

  lemma PairsAtAppend<T>(s: seq<T>, x: seq<(nat, nat)>, y: seq<(nat, nat)>)
    requires forall k :: 0 <= k < |x| ==> x[k].0 < |s| && x[k].1 < |s|
    requires forall k :: 0 <= k < |y| ==> y[k].0 < |s| && y[k].1 < |s|
    ensures PairsAt(s, x + y) == PairsAt(s, x) + PairsAt(s, y)
  {
    var xy := x + y;
    assert forall k :: 0 <= k < |y| ==> xy[|x| + k] == y[k];
  }

  /** The inner of two nested loops that push `(s[i], s[j])` for each
      `j in i + 1..s.len()`. */
  method PairsFrom<T>(s: seq<T>, i: nat) returns (pairs: seq<(T, T)>)
    requires i < |s|
    ensures pairs == PairsAt(s, PairRow(i, |s|))
  {
    var n := |s|;
    ghost var row := PairRow(i, n);
    pairs := [];
    for j := i + 1 to n
      invariant pairs == PairsAt(s, row[..j - i - 1])
    {
      assert row[..j - i] == row[..j - i - 1] + [(i, j)];
      PairsAtAppend(s, row[..j - i - 1], [(i, j)]);
      pairs := pairs + [(s[i], s[j])];
    }
    assert row[..n - i - 1] == row;
  }

  /** The integers of `lo..=hi` that satisfy `p`, ascending: an iterator over an
      inclusive range followed by `filter`. */
  function RangeFilter(lo: int, hi: int, p: int -> bool): (r: seq<int>)
    ensures forall i, j :: 0 <= i < j < |r| ==> r[i] < r[j]
    ensures forall x :: x in r <==> lo <= x <= hi && p(x)
    decreases hi - lo + 1
  {
    if hi < lo then []
    else
      var r := RangeFilter(lo, hi - 1, p);
      assert forall i :: 0 <= i < |r| ==> r[i] in r && r[i] < hi;
      r + (if p(hi) then [hi] else [])
  }

  /** Cutting out position `i` removes one copy of `s[i]`. */
  lemma RemoveAt<T>(s: seq<T>, i: nat)
    requires i < |s|
    ensures s == s[..i] + [s[i]] + s[i + 1..]
    ensures multiset(s[..i] + s[i + 1..]) == multiset(s) - multiset{s[i]}
  {
    assert s == s[..i] + [s[i]] + s[i + 1..];
  }

  /** No element occurs twice. */
  predicate Distinct<T(==)>(s: seq<T>) {
    forall i, j :: 0 <= i < j < |s| ==> s[i] != s[j]
  }

  /** A sequence without repeats has as many elements as its set. */
  lemma {:induction false} DistinctCard<T>(s: seq<T>)
    requires Distinct(s)
    ensures |set x | x in s| == |s|
  {
    if s != [] {
      var init, last := s[..|s| - 1], s[|s| - 1];
      assert s == init + [last];
      DistinctCard(init);
      assert (set x | x in s) == (set x | x in init) + {last};
      assert last !in (set x | x in init);
    }
  }
}
