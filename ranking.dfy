/** Multi-column ordering as pandas' `sort_values(by=[...], ascending=[...])`
    does it, followed by `head(n)`. A row's sort key is a sequence of integers
    compared lexicographically: an absent value becomes `[1, 0]` and a present
    value `v` becomes `[0, v]` (ascending) or `[0, -v]` (descending), so absent
    values come last in either direction (`na_position='last'`). The sort is
    stable, as pandas' multi-column sort is. */
module Ranking {
  import opened Table

  datatype Direction = Ascending | Descending

  /** One `(column, ascending)` pair of a `sort_values` call. */
  datatype SortKey = SortKey(column: Column, direction: Direction)

  function Component(v: Option<int>, d: Direction): seq<int> {
    match v
    case None => [1, 0]
    case Some(x) => [0, if d == Ascending then x else -x]
  }

  function KeyOf(keys: seq<SortKey>, r: Row): seq<int> {
    if keys == [] then []
    else Component(Value(r, keys[0].column), keys[0].direction) + KeyOf(keys[1..], r)
  }

  /** Lexicographic `<=` on integer sequences. */
  predicate LexLe(a: seq<int>, b: seq<int>)
    decreases |a|
  {
    a == [] || (b != [] && (a[0] < b[0] || (a[0] == b[0] && LexLe(a[1..], b[1..]))))
  }

  lemma {:induction false} LexLeReflexive(a: seq<int>)
    ensures LexLe(a, a)
  {
    if a != [] {
      LexLeReflexive(a[1..]);
    }
  }

  lemma {:induction false} LexLeTransitive(a: seq<int>, b: seq<int>, c: seq<int>)
    requires LexLe(a, b) && LexLe(b, c)
    ensures LexLe(a, c)
    decreases |a|
  {
    if a != [] && a[0] == b[0] && b[0] == c[0] {
      LexLeTransitive(a[1..], b[1..], c[1..]);
    }
  }

  lemma {:induction false} LexLeTotal(a: seq<int>, b: seq<int>)
    ensures LexLe(a, b) || LexLe(b, a)
    decreases |a|
  {
    if a != [] && b != [] && a[0] == b[0] {
      LexLeTotal(a[1..], b[1..]);
    }
  }

  lemma {:induction false} LexLeAntisymmetric(a: seq<int>, b: seq<int>)
    requires LexLe(a, b) && LexLe(b, a)
    ensures a == b
    decreases |a|
  {
    if a != [] {
      LexLeAntisymmetric(a[1..], b[1..]);
      assert a == [a[0]] + a[1..] && b == [b[0]] + b[1..];
    }
  }

  /** Row `x` may precede row `y` in the order `keys` gives. */
  predicate Before(keys: seq<SortKey>, x: Row, y: Row) {
    LexLe(KeyOf(keys, x), KeyOf(keys, y))
  }

  predicate SortedBy(keys: seq<SortKey>, s: seq<Row>) {
    forall i, j :: 0 <= i < j < |s| ==> Before(keys, s[i], s[j])
  }

  /** Places `x` in front of the first row it may precede. */
  function Insert(keys: seq<SortKey>, x: Row, s: seq<Row>): (r: seq<Row>)
    ensures |r| == |s| + 1
    ensures multiset(r) == multiset(s) + multiset{x}
  {
    if s == [] || Before(keys, x, s[0]) then [x] + s
    else
      assert s == [s[0]] + s[1..];
      [s[0]] + Insert(keys, x, s[1..])
  }

  /** A row that may precede the head of a sorted list may lead it. */
  lemma PrependSorted(keys: seq<SortKey>, x: Row, s: seq<Row>)
    requires SortedBy(keys, s)
    requires s == [] || Before(keys, x, s[0])
    ensures SortedBy(keys, [x] + s)
  {
    var r := [x] + s;
    forall i, j | 0 <= i < j < |r| ensures Before(keys, r[i], r[j]) {
      if i == 0 && j > 1 {
        LexLeTransitive(KeyOf(keys, x), KeyOf(keys, s[0]), KeyOf(keys, s[j - 1]));
      }
    }
  }

  /** A row that may precede every row of a sorted list may lead it. */
  lemma ConsSorted(keys: seq<SortKey>, y: Row, s: seq<Row>)
    requires SortedBy(keys, s)
    requires forall z :: z in s ==> Before(keys, y, z)
    ensures SortedBy(keys, [y] + s)
  {
    var r := [y] + s;
    forall i, j | 0 <= i < j < |r| ensures Before(keys, r[i], r[j]) {
      if i == 0 {
        assert r[j] == s[j - 1];
      }
    }
  }

  lemma {:induction false} InsertSorted(keys: seq<SortKey>, x: Row, s: seq<Row>)
    requires SortedBy(keys, s)
    ensures SortedBy(keys, Insert(keys, x, s))
  {
    if s == [] || Before(keys, x, s[0]) {
      PrependSorted(keys, x, s);
    } else {
      var y := s[0];
      var rest := Insert(keys, x, s[1..]);
      InsertSorted(keys, x, s[1..]);
      LexLeTotal(KeyOf(keys, x), KeyOf(keys, y));
      forall z | z in rest ensures Before(keys, y, z) {
        assert z in multiset(rest);
        if z != x {
          assert z in multiset(s[1..]);
          var j :| 0 <= j < |s[1..]| && s[1..][j] == z;
          assert s[j + 1] == z;
        }
      }
      ConsSorted(keys, y, rest);
    }
  }

  /** `sort_values(by=keys)`: a sorted permutation of `t`. */
  function SortBy(keys: seq<SortKey>, t: seq<Row>): (r: seq<Row>)
    ensures |r| == |t|
    ensures multiset(r) == multiset(t)
    ensures SortedBy(keys, r)
  {
    if t == [] then []
    else
      var rest := SortBy(keys, t[1..]);
      InsertSorted(keys, t[0], rest);
      assert t == [t[0]] + t[1..];
      Insert(keys, t[0], rest)
  }

  /** The rows whose whole sort key is `k`, in order. */
  function WithKey(keys: seq<SortKey>, k: seq<int>, s: seq<Row>): seq<Row> {
    if s == [] then []
    else (if KeyOf(keys, s[0]) == k then [s[0]] else []) + WithKey(keys, k, s[1..])
  }

  lemma WithKeyCons(keys: seq<SortKey>, k: seq<int>, x: Row, s: seq<Row>)
    ensures WithKey(keys, k, [x] + s) == (if KeyOf(keys, x) == k then [x] else []) + WithKey(keys, k, s)
  {
    assert ([x] + s)[1..] == s;
  }

  lemma {:induction false} InsertStable(keys: seq<SortKey>, k: seq<int>, x: Row, s: seq<Row>)
    ensures WithKey(keys, k, Insert(keys, x, s))
         == (if KeyOf(keys, x) == k then [x] else []) + WithKey(keys, k, s)
    decreases |s|, 1
  {
    if s == [] || Before(keys, x, s[0]) {
      WithKeyCons(keys, k, x, s);
    } else {
      InsertStableSkip(keys, k, x, s);
    }
  }

  /** The case where `x` is inserted after the first row of `s`. */
  lemma {:induction false} InsertStableSkip(keys: seq<SortKey>, k: seq<int>, x: Row, s: seq<Row>)
    requires s != [] && !Before(keys, x, s[0])
    ensures WithKey(keys, k, Insert(keys, x, s))
         == (if KeyOf(keys, x) == k then [x] else []) + WithKey(keys, k, s)
    decreases |s|, 0
  {
    var y, tail := s[0], s[1..];
    assert KeyOf(keys, y) != KeyOf(keys, x) by {
      LexLeReflexive(KeyOf(keys, x));
    }
    var inserted := Insert(keys, x, tail);
    assert Insert(keys, x, s) == [y] + inserted;
    assert s == [y] + tail;
    var xs := if KeyOf(keys, x) == k then [x] else [];
    var ys := if KeyOf(keys, y) == k then [y] else [];
    var w := WithKey(keys, k, tail);
    InsertStable(keys, k, x, tail);
    WithKeyCons(keys, k, y, inserted);
    WithKeyCons(keys, k, y, tail);
    SwapDisjoint(xs, ys, w);
  }

  /** Two lists of which one is empty can be put in front of a third in
      either order. */
  lemma SwapDisjoint(xs: seq<Row>, ys: seq<Row>, w: seq<Row>)
    requires xs == [] || ys == []
    ensures ys + (xs + w) == xs + (ys + w)
  {
  }

  /** Stability: rows that agree on every sort column keep their relative
      input order. */
  lemma {:induction false} SortByStable(keys: seq<SortKey>, k: seq<int>, t: seq<Row>)
    ensures WithKey(keys, k, SortBy(keys, t)) == WithKey(keys, k, t)
  {
    if t != [] {
      SortByStable(keys, k, t[1..]);
      InsertStable(keys, k, t[0], SortBy(keys, t[1..]));
      WithKeyCons(keys, k, t[0], t[1..]);
      assert t == [t[0]] + t[1..];
    }
  }

  /** Sorting rows that are already in order changes nothing. */
  lemma {:induction false} SortBySortedIsIdentity(keys: seq<SortKey>, t: seq<Row>)
    requires SortedBy(keys, t)
    ensures SortBy(keys, t) == t
  {
    if t != [] {
      SortBySortedIsIdentity(keys, t[1..]);
      assert t == [t[0]] + t[1..];
    }
  }

  /** `na_position='last'`: once the first sort column is absent, it stays
      absent for the rest of a sorted table, whatever the direction. */
  lemma MissingLast(keys: seq<SortKey>, s: seq<Row>, i: nat, j: nat)
    requires keys != [] && SortedBy(keys, s)
    requires i < j < |s| && Value(s[i], keys[0].column).None?
    ensures Value(s[j], keys[0].column).None?
  {
    assert Before(keys, s[i], s[j]);
    var c := keys[0].column;
    var d := keys[0].direction;
    assert KeyOf(keys, s[i]) == Component(Value(s[i], c), d) + KeyOf(keys[1..], s[i]);
    assert KeyOf(keys, s[j]) == Component(Value(s[j], c), d) + KeyOf(keys[1..], s[j]);
  }

  lemma HeadOfSortedIsOptimal(keys: seq<SortKey>, s: seq<Row>, n: nat)
    requires SortedBy(keys, s)
    ensures forall y :: y in Head(s, n) ==>
              forall x :: x in multiset(s) - multiset(Head(s, n)) ==> Before(keys, y, x)
  {
    var h := Head(s, n);
    var m := |h|;
    assert s == h + s[m..];
    assert multiset(s) == multiset(h) + multiset(s[m..]);
    forall y, x | y in h && x in multiset(s) - multiset(h) ensures Before(keys, y, x) {
      assert x in s[m..];
      var i :| 0 <= i < m && h[i] == y;
      var j :| m <= j < |s| && s[j] == x;
    }
  }

  /** `sort_values(by=keys).head(n)`: the `n` best rows in order. No row
      left out sorts strictly before a row that was kept. */
  function Top(keys: seq<SortKey>, t: seq<Row>, n: nat): (top: seq<Row>)
    ensures |top| == if n < |t| then n else |t|
    ensures multiset(top) <= multiset(t)
    ensures SortedBy(keys, top)
    ensures forall y :: y in top ==>
              forall x :: x in multiset(t) - multiset(top) ==> Before(keys, y, x)
  {
    var sorted := SortBy(keys, t);
    HeadOfSortedIsOptimal(keys, sorted, n);
    HeadOfSorted(keys, sorted, n);
    Head(sorted, n)
  }

  /** The first `n` rows of a sorted table are sorted and drawn from it. */
  lemma HeadOfSorted(keys: seq<SortKey>, s: seq<Row>, n: nat)
    requires SortedBy(keys, s)
    ensures multiset(Head(s, n)) <= multiset(s)
    ensures SortedBy(keys, Head(s, n))
  {
    var h := Head(s, n);
    assert s == h + s[|h|..];
    assert multiset(s) == multiset(h) + multiset(s[|h|..]);
    assert forall i :: 0 <= i < |h| ==> h[i] == s[i];
  }

  /** `a` sorts strictly ahead of `b` in direction `d`. */
  predicate Ahead(d: Direction, a: int, b: int) {
    if d == Ascending then a < b else a > b
  }

  lemma LexLeCons(h1: int, a: seq<int>, h2: int, b: seq<int>)
    ensures LexLe([h1] + a, [h2] + b) <==> h1 < h2 || (h1 == h2 && LexLe(a, b))
  {
    assert ([h1] + a)[1..] == a && ([h2] + b)[1..] == b;
  }

  /** Sort-key component of a present value, as the head of a key. */
  lemma ComponentPresent(v: int, d: Direction, rest: seq<int>)
    ensures Component(Some(v), d) + rest == [0] + ([if d == Ascending then v else -v] + rest)
  {
  }

  /** With one sort column and a present value on both rows, `Before` is the
      plain comparison in that column's direction. */
  lemma BeforeOneColumn(k: SortKey, x: Row, y: Row)
    requires Value(x, k.column).Some? && Value(y, k.column).Some?
    ensures Before([k], x, y) <==>
              (var a, b := Value(x, k.column).value, Value(y, k.column).value;
               Ahead(k.direction, a, b) || a == b)
  {
    var a, b := Value(x, k.column).value, Value(y, k.column).value;
    var d := k.direction;
    var sa, sb := if d == Ascending then a else -a, if d == Ascending then b else -b;
    assert KeyOf([k], x) == [0] + ([sa] + []) by {
      ComponentPresent(a, d, KeyOf([], x));
    }
    assert KeyOf([k], y) == [0] + ([sb] + []) by {
      ComponentPresent(b, d, KeyOf([], y));
    }
    LexLeCons(0, [sa], 0, [sb]);
    LexLeCons(sa, [], sb, []);
  }

  /** With two sort columns and present values, `Before` compares the first
      column and breaks a tie on the second. */
  lemma BeforeTwoColumns(k1: SortKey, k2: SortKey, x: Row, y: Row)
    requires Value(x, k1.column).Some? && Value(y, k1.column).Some?
    requires Value(x, k2.column).Some? && Value(y, k2.column).Some?
    ensures Before([k1, k2], x, y) <==>
              (var a1, b1 := Value(x, k1.column).value, Value(y, k1.column).value;
               var a2, b2 := Value(x, k2.column).value, Value(y, k2.column).value;
               Ahead(k1.direction, a1, b1) || (a1 == b1 && (Ahead(k2.direction, a2, b2) || a2 == b2)))
  {
    var a1, b1 := Value(x, k1.column).value, Value(y, k1.column).value;
    var d1 := k1.direction;
    var sa1, sb1 := if d1 == Ascending then a1 else -a1, if d1 == Ascending then b1 else -b1;
    var keys := [k1, k2];
    assert keys[1..] == [k2];
    var tx, ty := KeyOf([k2], x), KeyOf([k2], y);
    assert KeyOf(keys, x) == [0] + ([sa1] + tx) by {
      ComponentPresent(a1, d1, tx);
    }
    assert KeyOf(keys, y) == [0] + ([sb1] + ty) by {
      ComponentPresent(b1, d1, ty);
    }
    LexLeCons(0, [sa1] + tx, 0, [sb1] + ty);
    LexLeCons(sa1, tx, sb1, ty);
    BeforeOneColumn(k2, x, y);
  }
}
