/** The table operations the pipeline chains: boolean-mask selection, `drop_duplicates`
    with `keep='last'`, `sort_values` followed by it, and an inner `merge`. A table is a
    sequence of rows; a column is a function from a row to its cell. */
module Frame {
  import opened Ordering

  // ---------------------------------------------------------------------------
  // Selection: `df[mask]`

  /** The rows of `s` for which `p` holds, in their original order. */
  function Filter<T(!new)>(s: seq<T>, p: T -> bool): (r: seq<T>)
    ensures forall x :: x in r <==> x in s && p(x)
    ensures forall x :: multiset(r)[x] == if p(x) then multiset(s)[x] else 0
    ensures |r| <= |s|
  {
    KeptContract(s, p);
    Kept(s, p)
  }

  /** The recursion behind Filter, kept free of a contract so that proofs about the order
      of the kept rows unfold it cheaply. */
  function Kept<T>(s: seq<T>, p: T -> bool): seq<T> {
    if s == [] then [] else (if p(s[0]) then [s[0]] else []) + Kept(s[1..], p)
  }

  lemma {:induction false} KeptContract<T(!new)>(s: seq<T>, p: T -> bool)
    ensures forall x :: x in Kept(s, p) <==> x in s && p(x)
    ensures forall x :: multiset(Kept(s, p))[x] == if p(x) then multiset(s)[x] else 0
    ensures |Kept(s, p)| <= |s|
  {
    if s != [] {
      KeptContract(s[1..], p);
      var head := if p(s[0]) then [s[0]] else [];
      assert Kept(s, p) == head + Kept(s[1..], p);
      assert multiset(s) == multiset{s[0]} + multiset(s[1..]) by {
        assert s == [s[0]] + s[1..];
      }
      assert multiset(head + Kept(s[1..], p)) == multiset(head) + multiset(Kept(s[1..], p));
      forall x ensures x in s <==> x == s[0] || x in s[1..] {
        assert s == [s[0]] + s[1..];
      }
    }
  }

  lemma {:induction false} KeptConcat<T>(a: seq<T>, b: seq<T>, p: T -> bool)
    ensures Kept(a + b, p) == Kept(a, p) + Kept(b, p)
  {
    if a == [] {
      assert a + b == b;
    } else {
      var ab := a + b;
      var head := if p(a[0]) then [a[0]] else [];
      assert ab != [] && ab[0] == a[0] && ab[1..] == a[1..] + b;
      assert Kept(ab, p) == head + Kept(a[1..] + b, p);
      KeptConcat(a[1..], b, p);
      assert Kept(a, p) == head + Kept(a[1..], p);
      assert head + (Kept(a[1..], p) + Kept(b, p)) == (head + Kept(a[1..], p)) + Kept(b, p);
    }
  }

  lemma KeptSingleton<T>(x: T, p: T -> bool)
    ensures Kept([x], p) == if p(x) then [x] else []
  {
    assert [x][1..] == [];
  }

  /** Selecting from two tables one after the other is selecting from each: together with
      the contract of Filter this fixes the order of the kept rows. */
  lemma FilterConcat<T(!new)>(a: seq<T>, b: seq<T>, p: T -> bool)
    ensures Filter(a + b, p) == Filter(a, p) + Filter(b, p)
  {
    KeptConcat(a, b, p);
  }

  /** A one-row table is kept whole or dropped whole. */
  lemma FilterSingleton<T(!new)>(x: T, p: T -> bool)
    ensures Filter([x], p) == if p(x) then [x] else []
  {
    KeptSingleton(x, p);
  }

  // ---------------------------------------------------------------------------
  // Keys

  /** The set of values that column `key` takes in `s`. */
  function KeysOf<T(==), K(==)>(s: seq<T>, key: T -> K): set<K> {
    set x | x in s :: key(x)
  }

  lemma KeyInKeysOf<T, K>(s: seq<T>, key: T -> K, x: T)
    requires x in s
    ensures key(x) in KeysOf(s, key)
  {
  }

  /** No two rows of `s` share a value of column `key`. */
  ghost predicate UniqueBy<T, K>(s: seq<T>, key: T -> K) {
    forall i, j :: 0 <= i < j < |s| ==> key(s[i]) != key(s[j])
  }

  /** `x` occurs in `s` at a position after which no row has the same key. */
  ghost predicate LastOfItsKey<T, K>(s: seq<T>, key: T -> K, x: T) {
    exists i :: 0 <= i < |s| && s[i] == x && forall j :: i < j < |s| ==> key(s[j]) != key(x)
  }

  // ---------------------------------------------------------------------------
  // `drop_duplicates(key, keep='last')`

  lemma KeysOfCons<T, K>(s: seq<T>, key: T -> K)
    requires s != []
    ensures KeysOf(s, key) == {key(s[0])} + KeysOf(s[1..], key)
  {
    forall k | k in KeysOf(s, key) ensures k in {key(s[0])} + KeysOf(s[1..], key) {
      var x :| x in s && key(x) == k;
      var i :| 0 <= i < |s| && s[i] == x;
      if i > 0 {
        assert s[1..][i - 1] == x;
      }
    }
  }

  /** Keeps, for every value of column `key`, only the last row that has it; the kept rows
      stay in their original order. */
  function DedupLast<T(==), K(==)>(s: seq<T>, key: T -> K): (r: seq<T>)
    ensures UniqueBy(r, key)
    ensures KeysOf(r, key) == KeysOf(s, key)
    ensures multiset(r) <= multiset(s)
  {
    if s == [] then []
    else
      var rest := DedupLast(s[1..], key);
      KeysOfCons(s, key);
      assert multiset(s) == multiset{s[0]} + multiset(s[1..]) by {
        assert s == [s[0]] + s[1..];
      }
      if key(s[0]) in KeysOf(s[1..], key) then rest
      else
        KeysOfCons([s[0]] + rest, key);
        assert ([s[0]] + rest)[1..] == rest;
        assert UniqueBy([s[0]] + rest, key) by {
          forall y | y in rest ensures key(y) != key(s[0]) {
            assert key(y) in KeysOf(rest, key);
          }
          forall i, j | 0 <= i < j < |[s[0]] + rest|
            ensures key(([s[0]] + rest)[i]) != key(([s[0]] + rest)[j])
          {
            assert ([s[0]] + rest)[j] == rest[j - 1];
            if i > 0 {
              assert ([s[0]] + rest)[i] == rest[i - 1];
            }
          }
        }
        [s[0]] + rest
  }

  /** A row survives DedupLast exactly when it is the last row of its key. */
  lemma {:induction false} DedupLastKeepsLast<T, K>(s: seq<T>, key: T -> K, x: T)
    ensures x in DedupLast(s, key) <==> LastOfItsKey(s, key, x)
  {
    if s != [] {
      var t := s[1..];
      DedupLastKeepsLast(t, key, x);
      if LastOfItsKey(t, key, x) {
        var i :| 0 <= i < |t| && t[i] == x && forall j :: i < j < |t| ==> key(t[j]) != key(x);
        assert s[i + 1] == x && forall j :: i + 1 < j < |s| ==> key(s[j]) != key(x) by {
          forall j | i + 1 < j < |s| ensures key(s[j]) != key(x) {
            assert s[j] == t[j - 1];
          }
        }
      }
      if LastOfItsKey(s, key, x) {
        var i :| 0 <= i < |s| && s[i] == x && forall j :: i < j < |s| ==> key(s[j]) != key(x);
        if i > 0 {
          assert t[i - 1] == x && forall j :: i - 1 < j < |t| ==> key(t[j]) != key(x) by {
            forall j | i - 1 < j < |t| ensures key(t[j]) != key(x) {
              assert t[j] == s[j + 1];
            }
          }
        } else {
          assert key(s[0]) !in KeysOf(t, key) by {
            forall y | y in t ensures key(y) != key(x) {
              var j :| 0 <= j < |t| && t[j] == y;
              assert s[j + 1] == y;
            }
          }
        }
      } else if x == s[0] {
        assert key(s[0]) in KeysOf(t, key) by {
          var j :| 0 < j < |s| && key(s[j]) == key(x);
          assert t[j - 1] == s[j];
        }
      }
    }
  }

  /** On a table whose keys are already unique, DedupLast changes nothing. */
  lemma {:induction false} DedupLastOfUnique<T, K>(s: seq<T>, key: T -> K)
    requires UniqueBy(s, key)
    ensures DedupLast(s, key) == s
  {
    if s != [] {
      var t := s[1..];
      assert UniqueBy(t, key);
      DedupLastOfUnique(t, key);
      assert key(s[0]) !in KeysOf(t, key) by {
        forall y | y in t ensures key(y) != key(s[0]) {
          var j :| 0 <= j < |t| && t[j] == y;
          assert s[j + 1] == y;
        }
      }
      assert DedupLast(s, key) == [s[0]] + DedupLast(t, key);
      assert s == [s[0]] + t;
    }
  }

  /** DedupLast keeps a subsequence, so it keeps a sorted table sorted. */
  lemma {:induction false} DedupLastSorted<T, K>(s: seq<T>, key: T -> K, le: (T, T) -> bool)
    requires SortedBy(s, le)
    ensures SortedBy(DedupLast(s, key), le)
  {
    if s != [] {
      var t := s[1..];
      assert SortedBy(t, le);
      DedupLastSorted(t, key, le);
      var rest := DedupLast(t, key);
      forall y | y in rest ensures le(s[0], y) {
        assert y in multiset(t);
        var j :| 0 <= j < |t| && t[j] == y;
        assert s[j + 1] == y;
      }
    }
  }

  /** In a sorted table, the row DedupLast keeps for a key is `le`-greatest among the rows
      with that key. */
  lemma {:induction false} DedupLastKeepsGreatest<T(!new), K>(s: seq<T>, key: T -> K, le: (T, T) -> bool, x: T, y: T)
    requires TotalPreorder(le) && SortedBy(s, le)
    requires x in DedupLast(s, key) && y in s && key(y) == key(x)
    ensures le(y, x)
  {
    var t := s[1..];
    assert s == [s[0]] + t;
    var rest := DedupLast(t, key);
    assert SortedBy(t, le);
    if x in rest {
      assert x in multiset(t);
      if y in t {
        DedupLastKeepsGreatest(t, key, le, x, y);
      } else {
        assert y == s[0];
        var j :| 0 <= j < |t| && t[j] == x;
        assert s[j + 1] == x;
      }
    } else {
      assert x == s[0] && key(s[0]) !in KeysOf(t, key);
      assert y !in t;
      assert y == x;
    }
  }

  // ---------------------------------------------------------------------------
  // `sort_values(end).drop_duplicates(key, keep='last')`

  /** Sorts by the string column `end`, then keeps the last row of every `key`. */
  function SortThenDedup<T(!new,==), K(==)>(s: seq<T>, end: T -> string, key: T -> K): (r: seq<T>)
    ensures UniqueBy(r, key)
    ensures KeysOf(r, key) == KeysOf(s, key)
    ensures multiset(r) <= multiset(s)
    ensures SortedBy(r, ByColumn(end))
  {
    var sorted := SortBy(s, ByColumn(end));
    SortBySorted(s, ByColumn(end));
    DedupLastSorted(sorted, key, ByColumn(end));
    assert forall x :: x in sorted <==> x in s by {
      forall x ensures x in sorted <==> x in s {
        assert x in sorted <==> x in multiset(sorted);
      }
    }
    assert KeysOf(sorted, key) == KeysOf(s, key);
    DedupLast(sorted, key)
  }

  /** Every kept row has the greatest `end` among the input rows with its key. */
  lemma SortThenDedupKeepsLatest<T(!new), K>(s: seq<T>, end: T -> string, key: T -> K, x: T, y: T)
    requires x in SortThenDedup(s, end, key) && y in s && key(y) == key(x)
    ensures StrLe(end(y), end(x))
  {
    var le := ByColumn(end);
    var sorted := SortBy(s, le);
    SortBySorted(s, le);
    assert y in multiset(sorted);
    DedupLastKeepsGreatest(sorted, key, le, x, y);
  }

  /** Sorting and deduplicating a second time changes nothing. */
  lemma SortThenDedupIdempotent<T(!new), K>(s: seq<T>, end: T -> string, key: T -> K)
    ensures SortThenDedup(SortThenDedup(s, end, key), end, key) == SortThenDedup(s, end, key)
  {
    var t := SortThenDedup(s, end, key);
    SortByOfSorted(t, ByColumn(end));
    DedupLastOfUnique(t, key);
  }

  /** A table unique by `key` is unique by any finer key: one whose value determines `key`,
      as (accn, end) determines accn. */
  lemma UniqueByFiner<T, K, J>(s: seq<T>, key: T -> K, finer: T -> J)
    requires UniqueBy(s, key)
    requires forall x, y :: finer(x) == finer(y) ==> key(x) == key(y)
    ensures UniqueBy(s, finer)
  {
  }

  // ---------------------------------------------------------------------------
  // Inner `merge(on=key)`

  /** The rows of `right` whose key matches `l`, each combined with `l`, in `right`'s order. */
  function Matches<L, R(!new), K(==), O(!new)>(l: L, right: seq<R>, lkey: L -> K, rkey: R -> K, combine: (L, R) -> O): (r: seq<O>)
    ensures forall o :: o in r <==> exists x :: x in right && rkey(x) == lkey(l) && o == combine(l, x)
  {
    if right == [] then []
    else
      assert right == [right[0]] + right[1..];
      (if rkey(right[0]) == lkey(l) then [combine(l, right[0])] else []) + Matches(l, right[1..], lkey, rkey, combine)
  }

  /** Inner join: every pair of a `left` row and a `right` row with equal keys gives one
      combined row, grouped in the order of `left`. */
  function Merge<L(!new), R(!new), K(==), O(!new)>(left: seq<L>, right: seq<R>, lkey: L -> K, rkey: R -> K, combine: (L, R) -> O): (r: seq<O>)
    ensures forall o :: o in r <==>
      exists l, x :: l in left && x in right && lkey(l) == rkey(x) && o == combine(l, x)
    ensures left == [] || right == [] ==> r == []
  {
    if left == [] then []
    else
      assert left == [left[0]] + left[1..];
      Matches(left[0], right, lkey, rkey, combine) + Merge(left[1..], right, lkey, rkey, combine)
  }

  lemma {:induction false} NoMatches<L, R(!new), K, O(!new)>(l: L, right: seq<R>, lkey: L -> K, rkey: R -> K, combine: (L, R) -> O)
    requires forall x | x in right :: rkey(x) != lkey(l)
    ensures Matches(l, right, lkey, rkey, combine) == []
  {
    if right != [] {
      NoMatches(l, right[1..], lkey, rkey, combine);
    }
  }

  /** Against a `right` with unique keys, a row matches at most once. */
  lemma {:induction false} MatchesAtMostOne<L, R(!new), K, O(!new)>(l: L, right: seq<R>, lkey: L -> K, rkey: R -> K, combine: (L, R) -> O)
    requires UniqueBy(right, rkey)
    ensures |Matches(l, right, lkey, rkey, combine)| <= 1
    ensures right != [] && rkey(right[0]) == lkey(l) ==> Matches(l, right[1..], lkey, rkey, combine) == []
  {
    if right != [] {
      assert UniqueBy(right[1..], rkey);
      MatchesAtMostOne(l, right[1..], lkey, rkey, combine);
      if rkey(right[0]) == lkey(l) {
        forall x | x in right[1..] ensures rkey(x) != lkey(l) {
          var j :| 0 <= j < |right[1..]| && right[1..][j] == x;
          assert right[j + 1] == x;
        }
        NoMatches(l, right[1..], lkey, rkey, combine);
      }
    }
  }

  /** If both inputs have unique keys and a combined row carries its left row's key, the
      join has unique keys. */
  lemma {:induction false} MergeUnique<L(!new), R(!new), K, O(!new)>(left: seq<L>, right: seq<R>, lkey: L -> K, rkey: R -> K, combine: (L, R) -> O, okey: O -> K)
    requires UniqueBy(left, lkey) && UniqueBy(right, rkey)
    requires forall l, x :: okey(combine(l, x)) == lkey(l)
    ensures UniqueBy(Merge(left, right, lkey, rkey, combine), okey)
  {
    if left != [] {
      var tail := left[1..];
      assert UniqueBy(tail, lkey);
      MergeUnique(tail, right, lkey, rkey, combine, okey);
      var a := Matches(left[0], right, lkey, rkey, combine);
      var b := Merge(tail, right, lkey, rkey, combine);
      MatchesAtMostOne(left[0], right, lkey, rkey, combine);
      forall o | o in a ensures okey(o) == lkey(left[0]) {
      }
      forall o | o in b ensures okey(o) != lkey(left[0]) {
        var l, x :| l in tail && x in right && lkey(l) == rkey(x) && o == combine(l, x);
        var j :| 0 <= j < |tail| && tail[j] == l;
        assert left[j + 1] == l;
      }
      var r := a + b;
      forall i, j | 0 <= i < j < |r| ensures okey(r[i]) != okey(r[j]) {
        if j < |a| {
          assert false;
        } else if i < |a| {
          assert r[i] in a && r[j] == b[j - |a|];
        } else {
          assert r[i] == b[i - |a|] && r[j] == b[j - |a|];
        }
      }
    }
  }
}
