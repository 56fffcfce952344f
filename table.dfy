/** The in-memory dataset the dashboard scripts query: one `Row` per AI
    training run, a table being a sequence of rows. A numeric cell that pandas
    would hold as NaN is `None`; a text cell that pandas would hold as NaN is
    `None` too. */
module Table {

  datatype Option<+T> = None | Some(value: T)

  /** One training run. `domains` is the list pandas builds from the `domain`
      text cell (`None` where that cell is NaN). */
  datatype Row = Row(
    system: Option<string>,
    task: Option<string>,
    power: Option<int>,
    params: Option<int>,
    compute: Option<int>,
    co2: Option<int>,
    citations: Option<int>,
    domains: Option<seq<string>>)

  /** The numeric columns the scripts filter, sort and aggregate on. */
  datatype Column = Power | Parameters | Compute | Emissions | Citations

  function Value(r: Row, c: Column): Option<int> {
    match c
    case Power => r.power
    case Parameters => r.params
    case Compute => r.compute
    case Emissions => r.co2
    case Citations => r.citations
  }

  /** pandas' `cell <= limit` as a row mask: NaN compares false, so an
      absent value never passes an upper bound. */
  predicate AtMost(v: Option<int>, limit: int) {
    v.Some? && v.value <= limit
  }

  /** `df[mask]`: the rows for which `keep` holds, in table order, each
      kept exactly as often as it occurs. */
  function Filter<T(!new)>(keep: T -> bool, s: seq<T>): (r: seq<T>)
    ensures |r| <= |s|
    ensures multiset(r) <= multiset(s)
    ensures forall x :: multiset(r)[x] == if keep(x) then multiset(s)[x] else 0
  {
    KeptCounts(keep, s);
    Kept(keep, s)
  }

  /** The passing rows, front to back. */
  function Kept<T>(keep: T -> bool, s: seq<T>): seq<T> {
    if s == [] then [] else (if keep(s[0]) then [s[0]] else []) + Kept(keep, s[1..])
  }

  lemma {:induction false} KeptCounts<T(!new)>(keep: T -> bool, s: seq<T>)
    ensures |Kept(keep, s)| <= |s|
    ensures multiset(Kept(keep, s)) <= multiset(s)
    ensures forall x :: multiset(Kept(keep, s))[x] == if keep(x) then multiset(s)[x] else 0
  {
    if s != [] {
      var front := if keep(s[0]) then [s[0]] else [];
      var rest := Kept(keep, s[1..]);
      KeptCounts(keep, s[1..]);
      assert Kept(keep, s) == front + rest;
      assert multiset(Kept(keep, s)) == multiset(front) + multiset(rest);
      assert s == [s[0]] + s[1..];
      assert multiset(s) == multiset{s[0]} + multiset(s[1..]);
    }
  }

  /** The mask keeps table order: filtering a table made of two parts
      filters each part and keeps the first part's rows in front. */
  lemma FilterKeepsOrder<T(!new)>(keep: T -> bool, a: seq<T>, b: seq<T>)
    ensures Filter(keep, a + b) == Filter(keep, a) + Filter(keep, b)
  {
    KeptConcat(keep, a, b);
  }

  lemma {:induction false} KeptConcat<T>(keep: T -> bool, a: seq<T>, b: seq<T>)
    ensures Kept(keep, a + b) == Kept(keep, a) + Kept(keep, b)
  {
    if a == [] {
      assert a + b == b;
    } else {
      var ab := a + b;
      var front := if keep(a[0]) then [a[0]] else [];
      assert ab[0] == a[0] && ab[1..] == a[1..] + b;
      assert Kept(keep, ab) == front + Kept(keep, a[1..] + b);
      assert Kept(keep, a) == front + Kept(keep, a[1..]);
      KeptConcat(keep, a[1..], b);
    }
  }

  /** A single row is kept exactly when it passes the mask. */
  lemma FilterOne<T(!new)>(keep: T -> bool, x: T)
    ensures Filter(keep, [x]) == if keep(x) then [x] else []
  {
    assert [x][1..] == [];
  }

  /** `df.head(n)`: the first `n` rows, or all of them when there are fewer. */
  function Head<T>(s: seq<T>, n: nat): (r: seq<T>)
    ensures |r| == if n < |s| then n else |s|
    ensures r <= s
  {
    if n < |s| then s[..n] else s
  }
}
