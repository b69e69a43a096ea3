/** Orders used by the pipeline's sorts: Python's order on strings, and a sort of a
    table by a comparison on its rows. */
module Ordering {

  /** Python's `<=` on `str`: lexicographic by code point, a proper prefix sorting first.
      Period-end dates are ISO `YYYY-MM-DD` strings, so this is also chronological order. */
  predicate StrLe(a: string, b: string)
    ensures a <= b ==> StrLe(a, b)
    ensures StrLe(a, b) && |a| > 0 ==> |b| > 0 && a[0] <= b[0]
    decreases |a|
  {
    |a| == 0 || (|b| > 0 && (a[0] < b[0] || (a[0] == b[0] && StrLe(a[1..], b[1..]))))
  }

  /** Python's `<` on `str`: `a <= b` and not `b <= a`, which for this order is `a <= b`
      and `a != b`. */
  predicate StrLt(a: string, b: string)
    ensures StrLt(a, b) <==> StrLe(a, b) && !StrLe(b, a)
  {
    StrLeReflexive(a);
    if StrLe(a, b) && StrLe(b, a) then
      StrLeAntisymmetric(a, b);
      false
    else
      StrLe(a, b) && a != b
  }

  lemma {:induction false} StrLeReflexive(a: string)
    ensures StrLe(a, a)
  {
    if |a| > 0 {
      StrLeReflexive(a[1..]);
    }
  }

  lemma {:induction false} StrLeTotal(a: string, b: string)
    ensures StrLe(a, b) || StrLe(b, a)
  {
    if |a| > 0 && |b| > 0 && a[0] == b[0] {
      StrLeTotal(a[1..], b[1..]);
    }
  }

  lemma {:induction false} StrLeAntisymmetric(a: string, b: string)
    requires StrLe(a, b) && StrLe(b, a)
    ensures a == b
  {
    if |a| > 0 {
      StrLeAntisymmetric(a[1..], b[1..]);
      assert a == [a[0]] + a[1..] && b == [b[0]] + b[1..];
    }
  }

  lemma {:induction false} StrLeTransitive(a: string, b: string, c: string)
    requires StrLe(a, b) && StrLe(b, c)
    ensures StrLe(a, c)
  {
    if |a| > 0 && a[0] == b[0] && b[0] == c[0] {
      StrLeTransitive(a[1..], b[1..], c[1..]);
    }
  }

  lemma StrLtTransitive(a: string, b: string, c: string)
    requires StrLt(a, b) && StrLt(b, c)
    ensures StrLt(a, c)
  {
    StrLeTransitive(a, b, c);
    if StrLe(c, a) {
      StrLeTransitive(b, c, a);
      assert false;
    }
  }

  /** `le` orders every pair of values and is transitive: a total preorder. */
  ghost predicate TotalPreorder<T(!new)>(le: (T, T) -> bool) {
    && (forall a, b :: le(a, b) || le(b, a))
    && (forall a, b, c :: le(a, b) && le(b, c) ==> le(a, c))
  }

  /** Every earlier row is `le` every later row. */
  ghost predicate SortedBy<T>(s: seq<T>, le: (T, T) -> bool) {
    forall i, j :: 0 <= i < j < |s| ==> le(s[i], s[j])
  }

  /** Rows compared by one string column, as `sort_values(column)` compares them. */
  function ByColumn<T(!new)>(column: T -> string): (le: (T, T) -> bool)
    ensures forall a, b :: le(a, b) == StrLe(column(a), column(b))
    ensures TotalPreorder(le)
  {
    ByColumnTotalPreorder(column);
    (a: T, b: T) => StrLe(column(a), column(b))
  }

  /** Comparing the strings of one column is total and transitive on rows. */
  lemma ByColumnTotalPreorder<T(!new)>(column: T -> string)
    ensures forall a, b :: StrLe(column(a), column(b)) || StrLe(column(b), column(a))
    ensures forall a, b, c :: StrLe(column(a), column(b)) && StrLe(column(b), column(c))
                              ==> StrLe(column(a), column(c))
  {
    forall a, b ensures StrLe(column(a), column(b)) || StrLe(column(b), column(a)) {
      StrLeTotal(column(a), column(b));
    }
    forall a, b, c | StrLe(column(a), column(b)) && StrLe(column(b), column(c))
      ensures StrLe(column(a), column(c))
    {
      StrLeTransitive(column(a), column(b), column(c));
    }
  }

  /** Inserts `x` in front of the first row it is `le`, so that it stays ahead of equal rows
      that came after it in the input. */
  function Insert<T>(x: T, s: seq<T>, le: (T, T) -> bool): (r: seq<T>)
    ensures multiset(r) == multiset(s) + multiset{x}
  {
    if s == [] then [x]
    else if le(x, s[0]) then [x] + s
    else
      assert s == [s[0]] + s[1..];
      [s[0]] + Insert(x, s[1..], le)
  }

  /** A stable sort of `s` by `le`: a permutation of `s` (see SortBySorted for the order). */
  function SortBy<T>(s: seq<T>, le: (T, T) -> bool): (r: seq<T>)
    ensures multiset(r) == multiset(s)
  {
    if s == [] then []
    else
      assert s == [s[0]] + s[1..];
      Insert(s[0], SortBy(s[1..], le), le)
  }

  lemma {:induction false} InsertSorted<T(!new)>(x: T, s: seq<T>, le: (T, T) -> bool)
    requires TotalPreorder(le) && SortedBy(s, le)
    ensures SortedBy(Insert(x, s, le), le)
  {
    if s != [] && !le(x, s[0]) {
      InsertSorted(x, s[1..], le);
      var t := Insert(x, s[1..], le);
      assert le(s[0], x);
      forall y | y in t ensures le(s[0], y) {
        assert y in multiset(t);
        if y != x {
          assert y in s[1..];
        }
      }
    }
  }

  /** The result of SortBy is ordered by a total preorder `le`. */
  lemma {:induction false} SortBySorted<T(!new)>(s: seq<T>, le: (T, T) -> bool)
    requires TotalPreorder(le)
    ensures SortedBy(SortBy(s, le), le)
  {
    if s != [] {
      SortBySorted(s[1..], le);
      InsertSorted(s[0], SortBy(s[1..], le), le);
    }
  }

  /** Sorting rows that are already in order leaves them where they are. */
  lemma {:induction false} SortByOfSorted<T>(s: seq<T>, le: (T, T) -> bool)
    requires SortedBy(s, le)
    ensures SortBy(s, le) == s
  {
    if s != [] {
      assert SortedBy(s[1..], le);
      SortByOfSorted(s[1..], le);
      assert s == [s[0]] + s[1..];
    }
  }
}
