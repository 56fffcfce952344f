/** `data-manipulation.py`: the domain list each row carries, the domain menu,
    the Suggest tab's domain filter and ranking, and the Plot tab's domain
    filter and axis choices. */
module DataManipulation {
  import opened Table
  import opened Text
  import opened Ranking

  // ---------------------------------------------------------------------
  // Splitting the `domain` cell: `str.split(r'\s*,\s*')`
  // ---------------------------------------------------------------------

  /** Index of the first comma of `s`, or `|s|` when there is none. */
  function FirstComma(s: string): (i: nat)
    ensures i <= |s|
    ensures i < |s| ==> s[i] == ','
    ensures forall j :: 0 <= j < i ==> s[j] != ','
  {
    if s == [] || s[0] == ',' then 0 else 1 + FirstComma(s[1..])
  }

  /** The regular-expression split on a comma with any whitespace around it.
      The leftmost separator match starts at the whitespace run just before
      the first comma and takes all whitespace after it, so the piece in
      front loses its trailing whitespace and the remainder its leading
      whitespace. Whitespace at the two ends of the whole cell stays. */
  function SplitDomains(s: string): (pieces: seq<string>)
    ensures |pieces| >= 1
    ensures forall p :: p in pieces ==> ',' !in p
    ensures pieces[0] <= s
    decreases |s|
  {
    var i := FirstComma(s);
    if i == |s| then [s]
    else
      var head := TrimRight(s[..i]);
      var rest := TrimLeft(s[i + 1..]);
      FrontPiece(s, i);
      [head] + SplitDomains(rest)
  }

  /** A split is well formed: no piece holds a comma, none before a comma
      ends with whitespace and none after a comma starts with it. */
  lemma {:induction false} SplitWellFormed(s: string)
    ensures WellFormed(SplitDomains(s))
    decreases |s|
  {
    var i := FirstComma(s);
    if i < |s| {
      var head := TrimRight(s[..i]);
      var rest := TrimLeft(s[i + 1..]);
      FrontPiece(s, i);
      SplitWellFormed(rest);
      var tail := SplitDomains(rest);
      assert SplitDomains(s) == [head] + tail;
      SplitTight(head, rest, tail);
    }
  }

  /** The piece in front of the first comma is a comma-free prefix of the
      cell with no whitespace at its end; what follows the comma, once its
      leading whitespace is gone, is shorter than the cell and starts with
      no whitespace. */
  lemma FrontPiece(s: string, i: nat)
    requires i == FirstComma(s) && i < |s|
    ensures var head := TrimRight(s[..i]);
      && head <= s && ',' !in head
      && (head == [] || !IsSpace(head[|head| - 1]))
    ensures var rest := TrimLeft(s[i + 1..]);
      |rest| < |s| && (rest == [] || !IsSpace(rest[0]))
  {
    var head := TrimRight(s[..i]);
    assert forall j :: 0 <= j < |head| ==> head[j] == s[j];
  }

  /** One split step keeps the pieces comma-free and tight: the new front
      piece has no whitespace at its end, and the remainder none at its
      start. */
  lemma SplitTight(head: string, rest: string, tail: seq<string>)
    requires ',' !in head
    requires head == [] || !IsSpace(head[|head| - 1])
    requires rest == [] || !IsSpace(rest[0])
    requires WellFormed(tail) && tail[0] <= rest
    ensures WellFormed([head] + tail)
  {
    var ps := [head] + tail;
    assert ps[1..] == tail;
    assert forall k :: 0 < k < |ps| ==> ps[k] == tail[k - 1];
    assert ps[1] == tail[0];
    if tail[0] != [] {
      assert tail[0][0] == rest[0];
    }
  }

  /** `",".join(pieces)` */
  function Join(pieces: seq<string>): (s: string)
    ensures pieces != [] ==> pieces[0] <= s
    ensures |pieces| > 1 ==> |pieces[0]| < |s| && s[|pieces[0]|] == ','
    decreases |pieces|
  {
    if pieces == [] then []
    else if |pieces| == 1 then pieces[0]
    else pieces[0] + [','] + Join(pieces[1..])
  }

  /** What a split can give: at least one piece, no piece holding a comma, no
      whitespace at the end of a piece before a comma nor at the start of a
      piece after one. */
  predicate WellFormed(pieces: seq<string>) {
    && |pieces| >= 1
    && (forall i :: 0 <= i < |pieces| ==> ',' !in pieces[i])
    && EndsTight(pieces)
    && StartsTight(pieces)
  }

  /** No piece followed by another ends with whitespace. */
  predicate EndsTight(pieces: seq<string>)
    decreases |pieces|
  {
    |pieces| <= 1 ||
    ((pieces[0] == [] || !IsSpace(pieces[0][|pieces[0]| - 1])) && EndsTight(pieces[1..]))
  }

  /** No piece preceded by another starts with whitespace. */
  predicate StartsTight(pieces: seq<string>)
    decreases |pieces|
  {
    |pieces| <= 1 ||
    ((pieces[1] == [] || !IsSpace(pieces[1][0])) && StartsTight(pieces[1..]))
  }

  /** No whitespace touches a comma of `s`. */
  predicate TightCommas(s: string) {
    forall i :: 0 <= i < |s| && s[i] == ',' ==>
      (i == 0 || !IsSpace(s[i - 1])) && (i + 1 == |s| || !IsSpace(s[i + 1]))
  }

  lemma TrimRightKeeps(s: string)
    requires s == [] || !IsSpace(s[|s| - 1])
    ensures TrimRight(s) == s
  {
  }

  lemma TrimLeftKeeps(s: string)
    requires s == [] || !IsSpace(s[0])
    ensures TrimLeft(s) == s
  {
  }

  /** The join of a well-formed list never starts with whitespace after its
      first piece is gone, so the split finds its pieces again. */
  lemma {:induction false} JoinStart(pieces: seq<string>)
    requires |pieces| >= 1 && (pieces[0] == [] || !IsSpace(pieces[0][0]))
    ensures Join(pieces) == [] || !IsSpace(Join(pieces)[0])
  {
    if |pieces| > 1 && pieces[0] == [] {
      assert Join(pieces)[0] == ',';
    }
  }

  /** Splitting a join of a well-formed list gives the list back. */
  lemma {:induction false} SplitJoin(pieces: seq<string>)
    requires WellFormed(pieces)
    ensures SplitDomains(Join(pieces)) == pieces
    decreases |pieces|
  {
    var p := pieces[0];
    if |pieces| == 1 {
      assert FirstComma(p) == |p|;
    } else {
      var rest := pieces[1..];
      assert pieces == [p] + rest;
      assert WellFormed(rest);
      JoinCons(p, rest);
      JoinStart(rest);
      SplitAtFirstComma(p, Join(rest));
      SplitJoin(rest);
    }
  }

  /** A cell made of a comma-free piece with no whitespace at its end, a
      comma, and a remainder with no whitespace at its start splits into
      that piece and the split of the remainder. */
  lemma SplitAtFirstComma(p: string, rest: string)
    requires ',' !in p && (p == [] || !IsSpace(p[|p| - 1]))
    requires rest == [] || !IsSpace(rest[0])
    ensures SplitDomains(p + [','] + rest) == [p] + SplitDomains(rest)
  {
    var s := p + [','] + rest;
    assert s[|p|] == ',';
    assert forall j :: 0 <= j < |p| ==> s[j] == p[j];
    assert FirstComma(s) == |p|;
    assert s[..|p|] == p;
    assert s[|p| + 1..] == rest;
    TrimRightKeeps(p);
    TrimLeftKeeps(rest);
  }

  /** Joining the pieces of a cell with no whitespace around its commas gives
      the cell back. */
  lemma {:induction false} JoinSplit(s: string)
    requires TightCommas(s)
    ensures Join(SplitDomains(s)) == s
    decreases |s|
  {
    var i := FirstComma(s);
    if i < |s| {
      var front, rest := s[..i], s[i + 1..];
      TightAroundComma(s, i);
      TrimRightKeeps(front);
      TrimLeftKeeps(rest);
      JoinSplit(rest);
      var tail := SplitDomains(rest);
      assert SplitDomains(s) == [front] + tail;
      JoinCons(front, tail);
      CutAtComma(s, i);
    }
  }

  /** A string is what comes before position `i`, the comma there, and what
      comes after. */
  lemma CutAtComma(s: string, i: nat)
    requires i < |s| && s[i] == ','
    ensures s == s[..i] + [','] + s[i + 1..]
  {
  }

  /** Around a comma of a cell with no whitespace next to its commas: the
      part before ends, and the part after starts, with no whitespace, and
      the part after again has none next to its commas. */
  lemma TightAroundComma(s: string, i: nat)
    requires TightCommas(s) && i < |s| && s[i] == ','
    ensures s[..i] == [] || !IsSpace(s[..i][i - 1])
    ensures s[i + 1..] == [] || !IsSpace(s[i + 1..][0])
    ensures TightCommas(s[i + 1..])
  {
    var rest := s[i + 1..];
    forall j | 0 <= j < |rest| && rest[j] == ','
      ensures (j == 0 || !IsSpace(rest[j - 1])) && (j + 1 == |rest| || !IsSpace(rest[j + 1]))
    {
      assert s[i + 1 + j] == ',';
    }
  }

  lemma JoinCons(p: string, tail: seq<string>)
    requires |tail| >= 1
    ensures Join([p] + tail) == p + [','] + Join(tail)
  {
    assert ([p] + tail)[1..] == tail;
  }

  /** The join of a well-formed list has no whitespace next to a comma. */
  lemma {:induction false} JoinTight(pieces: seq<string>)
    requires WellFormed(pieces)
    ensures TightCommas(Join(pieces))
    decreases |pieces|
  {
    if |pieces| > 1 {
      var p := pieces[0];
      var rest := pieces[1..];
      assert WellFormed(rest) by {
        assert forall i :: 0 <= i < |rest| ==> rest[i] == pieces[i + 1];
      }
      JoinTight(rest);
      JoinStart(rest);
      var j := Join(rest);
      var s := Join(pieces);
      assert s == p + [','] + j;
      forall i | 0 <= i < |s| && s[i] == ','
        ensures (i == 0 || !IsSpace(s[i - 1])) && (i + 1 == |s| || !IsSpace(s[i + 1]))
      {
        if i > |p| {
          assert s[i] == j[i - |p| - 1];
          if i > |p| + 1 {
            assert s[i - 1] == j[i - |p| - 2];
          }
          if i + 1 < |s| {
            assert s[i + 1] == j[i - |p|];
          }
        } else if i == |p| && i > 0 {
          assert s[i - 1] == p[|p| - 1];
        }
      }
    }
  }

  /** The commas of `s` are the first one, at `i`, and those of what
      follows it once its leading whitespace is gone. */
  lemma CommasAfterFirst(s: string, i: nat)
    requires i == FirstComma(s) && i < |s|
    ensures multiset(s)[','] == 1 + multiset(TrimLeft(s[i + 1..]))[',']
  {
    var front, after := s[..i], s[i + 1..];
    var lead := LeadingSpaces(after);
    var spaces, rest := after[..lead], TrimLeft(after);
    CutAtComma(s, i);
    assert after == spaces + rest;
    NoCommas(front);
    NoCommas(spaces);
    assert multiset(s) == multiset(front) + multiset{','} + multiset(after);
    assert multiset(after) == multiset(spaces) + multiset(rest);
  }

  lemma NoCommas(s: string)
    requires forall j :: 0 <= j < |s| ==> s[j] != ','
    ensures multiset(s)[','] == 0
  {
    assert ',' !in s;
  }

  /** The split yields one piece more than the cell has commas: every comma
      of the cell separates two pieces, and the whitespace the split drops
      holds none. */
  lemma {:induction false} SplitCount(s: string)
    ensures |SplitDomains(s)| == multiset(s)[','] + 1
    decreases |s|
  {
    var i := FirstComma(s);
    if i == |s| {
      assert ',' !in s;
    } else {
      var rest := TrimLeft(s[i + 1..]);
      SplitStepLength(s, i);
      FrontPiece(s, i);
      SplitCount(rest);
      CommasAfterFirst(s, i);
    }
  }

  /** A cell with a comma splits into one piece more than what follows the
      comma. */
  lemma SplitStepLength(s: string, i: nat)
    requires i == FirstComma(s) && i < |s|
    ensures |SplitDomains(s)| == 1 + |SplitDomains(TrimLeft(s[i + 1..]))|
  {
    var rest := TrimLeft(s[i + 1..]);
    SplitMatchesFields(s);
    SplitMatchesFields(rest);
    FieldsStep(s, i);
    FieldsTrimLeft(s[i + 1..]);
  }

  /** Joining the pieces of a split leaves no whitespace next to a comma,
      and splitting the join again gives the same pieces. */
  lemma JoinOfSplitIsTight(s: string)
    ensures TightCommas(Join(SplitDomains(s)))
    ensures SplitDomains(Join(SplitDomains(s))) == SplitDomains(s)
  {
    SplitWellFormed(s);
    JoinTight(SplitDomains(s));
    SplitJoin(SplitDomains(s));
  }

  /** The literal split at every comma, `str.split(',')`: the fields between
      commas, whitespace and all. */
  function Fields(s: string): (fields: seq<string>)
    ensures |fields| >= 1
    ensures forall f :: f in fields ==> ',' !in f
    decreases |s|
  {
    var i := FirstComma(s);
    if i == |s| then [s] else [s[..i]] + Fields(s[i + 1..])
  }

  lemma FieldsStep(s: string, i: nat)
    requires i == FirstComma(s) && i < |s|
    ensures Fields(s) == [s[..i]] + Fields(s[i + 1..])
  {
  }

  /** Joining the literal fields with commas gives the cell back. */
  lemma {:induction false} JoinFields(s: string)
    ensures Join(Fields(s)) == s
    decreases |s|
  {
    var i := FirstComma(s);
    if i < |s| {
      var tail := Fields(s[i + 1..]);
      JoinFields(s[i + 1..]);
      FieldsStep(s, i);
      JoinCons(s[..i], tail);
      CutAtComma(s, i);
    }
  }

  /** Field `k` with the whitespace the separators swallow removed: leading
      whitespace unless it is the first field, trailing whitespace unless it
      is the last. */
  function TrimAt(fields: seq<string>, k: nat): string
    requires k < |fields|
  {
    var f := if k > 0 then TrimLeft(fields[k]) else fields[k];
    if k < |fields| - 1 then TrimRight(f) else f
  }

  /** The split is the literal split with the whitespace next to every comma
      removed: as many pieces as fields, piece `k` being field `k` without
      the whitespace on its comma sides; whitespace at the two ends of the
      cell stays. */
  lemma {:induction false} SplitMatchesFields(s: string)
    ensures |SplitDomains(s)| == |Fields(s)|
    ensures forall k :: 0 <= k < |Fields(s)| ==> SplitDomains(s)[k] == TrimAt(Fields(s), k)
    decreases |s|
  {
    var i := FirstComma(s);
    if i < |s| {
      var rest := TrimLeft(s[i + 1..]);
      FrontPiece(s, i);
      SplitMatchesFields(rest);
      var tail := Fields(s[i + 1..]);
      assert Fields(s) == [s[..i]] + tail;
      FieldsTrimLeft(s[i + 1..]);
      assert SplitDomains(s) == [TrimRight(s[..i])] + SplitDomains(rest);
      PiecesShift(s[..i], tail, SplitDomains(rest));
    }
  }

  /** `" a , b ".split` on `\s*,\s*` gives `[" a", "b "]`: the whitespace
      around the comma goes, the whitespace at the ends stays. */
  lemma SplitExample()
    ensures SplitDomains(" a , b ") == [" a", "b "]
  {
    var s := " a , b ";
    FirstCommaIs(s, 3);
    assert s[..3] == " a " && s[4..] == " b ";
    assert " a "[..2] == " a" && !IsSpace('a');
    assert TrimRight(" a ") == " a";
    LeadingSpacesIs(" b ", 1);
    assert TrimLeft(" b ") == "b ";
    FirstCommaIs("b ", 2);
    assert SplitDomains(s) == [" a"] + SplitDomains("b ");
  }

  /** One split step: the front piece is the first field without its
      trailing whitespace, and the remainder's pieces line up with the
      remaining fields. */
  lemma PiecesShift(front: string, tail: seq<string>, restPieces: seq<string>)
    requires |tail| >= 1 && |restPieces| == |tail|
    requires forall k :: 0 <= k < |tail| ==>
               restPieces[k] == TrimAt([TrimLeft(tail[0])] + tail[1..], k)
    ensures forall k :: 0 <= k < |tail| + 1 ==>
              ([TrimRight(front)] + restPieces)[k] == TrimAt([front] + tail, k)
  {
    forall k | 0 <= k < |tail| + 1
      ensures ([TrimRight(front)] + restPieces)[k] == TrimAt([front] + tail, k)
    {
      if k > 0 {
        TrimAtShift(front, tail, k - 1);
      }
    }
  }

  /** Field `j` of the cell once the first field's leading whitespace is
      gone is trimmed as field `j + 1` is after one more field in front. */
  lemma TrimAtShift(front: string, fields: seq<string>, j: nat)
    requires j < |fields|
    ensures TrimAt([TrimLeft(fields[0])] + fields[1..], j) == TrimAt([front] + fields, j + 1)
  {
    var g := [TrimLeft(fields[0])] + fields[1..];
    var h := [front] + fields;
    assert |g| == |fields| && |h| == |fields| + 1;
    var f := if j > 0 then TrimLeft(g[j]) else g[j];
    assert f == TrimLeft(h[j + 1]) by {
      if j == 0 {
        assert g[0] == TrimLeft(fields[0]) && h[1] == fields[0];
      } else {
        assert g[j] == fields[j] && h[j + 1] == fields[j];
      }
    }
  }

  /** Removing a cell's leading whitespace only touches its first field. */
  lemma FieldsTrimLeft(r: string)
    ensures Fields(TrimLeft(r)) == [TrimLeft(Fields(r)[0])] + Fields(r)[1..]
  {
    var k := LeadingSpaces(r);
    var i := FirstComma(r);
    assert i < |r| ==> !IsSpace(r[i]);
    assert k <= i;
    FirstCommaIs(r[k..], i - k);
    LeadingSpacesIs(r[..i], k);
    if i == |r| {
      assert r[..i] == r;
    } else {
      FieldsTrimLeftAtComma(r, k, i);
    }
  }

  /** `FieldsTrimLeft` when the cell holds a comma at `i`, after its `k`
      leading whitespace characters. */
  lemma FieldsTrimLeftAtComma(r: string, k: nat, i: nat)
    requires i == FirstComma(r) && k <= i < |r|
    requires FirstComma(r[k..]) == i - k && LeadingSpaces(r[..i]) == k
    ensures Fields(r[k..]) == [TrimLeft(Fields(r)[0])] + Fields(r)[1..]
  {
    var tail := Fields(r[i + 1..]);
    FieldsStep(r, i);
    FieldsStep(r[k..], i - k);
    SliceAfterSpaces(r, k, i);
    var front := r[..i][k..];
    assert TrimLeft(r[..i]) == front;
    assert Fields(r[k..]) == [front] + tail;
    assert Fields(r) == [r[..i]] + tail;
  }

  lemma SliceAfterSpaces(r: string, k: nat, i: nat)
    requires k <= i < |r|
    ensures r[k..][..i - k] == r[..i][k..]
    ensures r[k..][i - k + 1..] == r[i + 1..]
  {
  }

  lemma {:induction false} FirstCommaIs(s: string, i: nat)
    requires i <= |s| && (i < |s| ==> s[i] == ',')
    requires forall j :: 0 <= j < i ==> s[j] != ','
    ensures FirstComma(s) == i
  {
    if s != [] && s[0] != ',' {
      FirstCommaIs(s[1..], i - 1);
    }
  }

  lemma {:induction false} LeadingSpacesIs(s: string, k: nat)
    requires k <= |s| && (k < |s| ==> !IsSpace(s[k]))
    requires forall j :: 0 <= j < k ==> IsSpace(s[j])
    ensures LeadingSpaces(s) == k
  {
    if s != [] && IsSpace(s[0]) {
      LeadingSpacesIs(s[1..], k - 1);
    }
  }

  // ---------------------------------------------------------------------
  // The domain menu: `sorted({d for lst in df[domain_col].dropna() for d in lst})`
  // ---------------------------------------------------------------------

  /** A row's domain list; an absent (NaN) list contributes nothing. */
  function DomainsOf(r: Row): seq<string> {
    if r.domains.Some? then r.domains.value else []
  }

  /** Some row of `t` lists domain `d`. */
  predicate Mentioned(t: seq<Row>, d: string) {
    exists i :: 0 <= i < |t| && d in DomainsOf(t[i])
  }

  /** Strictly increasing in Python's string order: sorted, no duplicates. */
  predicate StrictlySorted(m: seq<string>) {
    forall i, j :: 0 <= i < j < |m| ==> StrLt(m[i], m[j])
  }

  /** Adding one domain to a sorted menu, as adding to the set does. */
  function InsertUnique(x: string, m: seq<string>): (r: seq<string>)
    requires StrictlySorted(m)
    ensures StrictlySorted(r)
    ensures forall y :: y in r <==> y == x || y in m
  {
    if m == [] then [x]
    else if x == m[0] then m
    else if StrLt(x, m[0]) then
      assert forall j :: 0 < j < |m| ==> StrLt(x, m[j]) by {
        forall j | 0 < j < |m| ensures StrLt(x, m[j]) {
          StrLtTransitive(x, m[0], m[j]);
        }
      }
      [x] + m
    else
      StrLtTrichotomy(x, m[0]);
      var rest := InsertUnique(x, m[1..]);
      assert forall y :: y in rest ==> StrLt(m[0], y) by {
        forall y | y in rest ensures StrLt(m[0], y) {
          if y != x {
            var j :| 0 <= j < |m[1..]| && m[1..][j] == y;
            assert y == m[j + 1];
          }
        }
      }
      assert m == [m[0]] + m[1..];
      var r := [m[0]] + rest;
      assert forall j :: 0 < j < |r| ==> r[j] in rest;
      r
  }

  /** Adding every domain of a list to a sorted menu. */
  function AddAll(ds: seq<string>, m: seq<string>): (r: seq<string>)
    requires StrictlySorted(m)
    ensures StrictlySorted(r)
    ensures forall y :: y in r <==> y in ds || y in m
  {
    if ds == [] then m
    else
      assert ds == [ds[0]] + ds[1..];
      AddAll(ds[1..], InsertUnique(ds[0], m))
  }

  /** The domain menu: every domain some row lists, once each, in Python's
      string order. */
  function DomainMenu(t: seq<Row>): (menu: seq<string>)
    ensures StrictlySorted(menu)
    ensures forall d :: d in menu <==> Mentioned(t, d)
  {
    if t == [] then []
    else
      var rest := DomainMenu(t[1..]);
      assert forall d :: Mentioned(t[1..], d) ==> Mentioned(t, d) by {
        forall d | Mentioned(t[1..], d) ensures Mentioned(t, d) {
          var i :| 0 <= i < |t[1..]| && d in DomainsOf(t[1..][i]);
          assert t[1..][i] == t[i + 1];
        }
      }
      assert forall d :: Mentioned(t, d) ==> d in DomainsOf(t[0]) || Mentioned(t[1..], d) by {
        forall d | Mentioned(t, d) && d !in DomainsOf(t[0]) ensures Mentioned(t[1..], d) {
          var i :| 0 <= i < |t| && d in DomainsOf(t[i]);
          assert t[i] == t[1..][i - 1];
        }
      }
      AddAll(DomainsOf(t[0]), rest)
  }

  /** The menu lists no domain twice. */
  lemma MenuHasNoDuplicates(t: seq<Row>, i: nat, j: nat)
    requires i < j < |DomainMenu(t)|
    ensures DomainMenu(t)[i] != DomainMenu(t)[j]
  {
    var menu := DomainMenu(t);
    StrLtIrreflexive(menu[i]);
  }

  // ---------------------------------------------------------------------
  // The Suggest tab: filter by domain, rank, `head(top_k)`
  // ---------------------------------------------------------------------

  /** `domain in lst if isinstance(lst, list) else False` */
  predicate InDomain(r: Row, d: string) {
    r.domains.Some? && d in r.domains.value
  }

  /** `df[mask]`: the rows whose domain list contains `d` exactly, in table
      order. */
  function DomainRows(t: seq<Row>, d: string): (dom: seq<Row>)
    ensures multiset(dom) <= multiset(t)
    ensures forall x :: multiset(dom)[x] == if InDomain(x, d) then multiset(t)[x] else 0
    ensures forall x :: x in dom ==> InDomain(x, d)
  {
    var dom := Filter((x: Row) => InDomain(x, d), t);
    assert forall x :: x in dom ==> InDomain(x, d) by {
      forall x | x in dom ensures InDomain(x, d) {
        assert x in multiset(dom);
      }
    }
    dom
  }

  /** The column names the script ranks on. */
  const PowerColumn: string := "training_power_draw_w"
  const CitationsColumn: string := "citations"

  /** The ranking step runs only when the table has both columns. */
  predicate Rankable(columns: seq<string>) {
    PowerColumn in columns && CitationsColumn in columns
  }

  /** `dropna(subset=[power_col, cite_col])` for one row. */
  predicate HasPowerAndCitations(r: Row) {
    r.power.Some? && r.citations.Some?
  }

  /** `sort_values(by=[cite_col, power_col], ascending=[False, True])` */
  const DomainKeys: seq<SortKey> := [SortKey(Citations, Descending), SortKey(Power, Ascending)]

  /** `x` may come before `y` in the ranking: more citations, or as many and
      no more power. */
  predicate MoreCitedOrLighter(x: Row, y: Row) {
    && HasPowerAndCitations(x) && HasPowerAndCitations(y)
    && (x.citations.value > y.citations.value
        || (x.citations.value == y.citations.value && x.power.value <= y.power.value))
  }

  lemma DomainOrder(x: Row, y: Row)
    requires HasPowerAndCitations(x) && HasPowerAndCitations(y)
    ensures Before(DomainKeys, x, y) <==> MoreCitedOrLighter(x, y)
  {
    BeforeTwoColumns(SortKey(Citations, Descending), SortKey(Power, Ascending), x, y);
  }

  lemma RankedIsOrdered(s: seq<Row>)
    requires SortedBy(DomainKeys, s)
    requires forall x :: x in s ==> HasPowerAndCitations(x)
    ensures forall i, j :: 0 <= i < j < |s| ==> MoreCitedOrLighter(s[i], s[j])
  {
    forall i, j | 0 <= i < j < |s| ensures MoreCitedOrLighter(s[i], s[j]) {
      DomainOrder(s[i], s[j]);
    }
  }

  /** The domain's rows as the script holds them before `head`: with both
      columns, the rows having both values, ranked by citations (most first)
      and then power (least first); otherwise all of them in table order. */
  function DomainRanking(t: seq<Row>, d: string, columns: seq<string>): (ranked: seq<Row>)
    ensures multiset(ranked) <= multiset(t)
    ensures forall x :: x in ranked ==> InDomain(x, d)
    ensures Rankable(columns) ==>
              forall x :: multiset(ranked)[x] ==
                if InDomain(x, d) && HasPowerAndCitations(x) then multiset(t)[x] else 0
    ensures Rankable(columns) ==> forall x :: x in ranked ==> HasPowerAndCitations(x)
    ensures Rankable(columns) ==> forall i, j :: 0 <= i < j < |ranked| ==> MoreCitedOrLighter(ranked[i], ranked[j])
    ensures !Rankable(columns) ==> ranked == DomainRows(t, d)
  {
    var dom := DomainRows(t, d);
    if Rankable(columns) then
      var complete := Filter(HasPowerAndCitations, dom);
      var ranked := SortBy(DomainKeys, complete);
      RankingIsSound(t, d, dom, complete, ranked);
      ranked
    else dom
  }

  lemma RankingIsSound(t: seq<Row>, d: string, dom: seq<Row>, complete: seq<Row>, ranked: seq<Row>)
    requires forall x :: multiset(dom)[x] == if InDomain(x, d) then multiset(t)[x] else 0
    requires forall x :: multiset(complete)[x] == if HasPowerAndCitations(x) then multiset(dom)[x] else 0
    requires multiset(ranked) == multiset(complete) && SortedBy(DomainKeys, ranked)
    ensures multiset(ranked) <= multiset(t)
    ensures forall x :: x in ranked ==> InDomain(x, d) && HasPowerAndCitations(x)
    ensures forall i, j :: 0 <= i < j < |ranked| ==> MoreCitedOrLighter(ranked[i], ranked[j])
  {
    forall x | x in ranked ensures InDomain(x, d) && HasPowerAndCitations(x) {
      assert x in multiset(ranked);
    }
    RankedIsOrdered(ranked);
  }

  /** `df_dom.head(top_k)`: a prefix of the ranking, of at most `top_k` rows,
      all of the domain; with both columns, every suggestion has citations
      and power, most cited first and, among equally cited, least power
      first. */
  function DomainSuggest(t: seq<Row>, d: string, columns: seq<string>, topK: nat): (sug: seq<Row>)
    ensures sug <= DomainRanking(t, d, columns)
    ensures |sug| == if topK < |DomainRanking(t, d, columns)| then topK else |DomainRanking(t, d, columns)|
    ensures multiset(sug) <= multiset(t)
    ensures forall x :: x in sug ==> InDomain(x, d)
    ensures Rankable(columns) ==> forall x :: x in sug ==> HasPowerAndCitations(x)
    ensures Rankable(columns) ==> forall i, j :: 0 <= i < j < |sug| ==> MoreCitedOrLighter(sug[i], sug[j])
  {
    var ranked := DomainRanking(t, d, columns);
    var sug := Head(ranked, topK);
    PrefixKeeps(ranked, sug);
    sug
  }

  /** A prefix holds rows of the whole, in the same relative order. */
  lemma PrefixKeeps(ranked: seq<Row>, sug: seq<Row>)
    requires sug <= ranked
    ensures multiset(sug) <= multiset(ranked)
    ensures forall x :: x in sug ==> x in ranked
    ensures forall i :: 0 <= i < |sug| ==> sug[i] == ranked[i]
  {
    assert ranked == sug + ranked[|sug|..];
    assert multiset(ranked) == multiset(sug) + multiset(ranked[|sug|..]);
  }

  /** The domain filter keeps table order. */
  lemma DomainRowsKeepOrder(a: seq<Row>, b: seq<Row>, d: string)
    ensures DomainRows(a + b, d) == DomainRows(a, d) + DomainRows(b, d)
  {
    FilterKeepsOrder((x: Row) => InDomain(x, d), a, b);
  }

  /** Without the two ranking columns the suggestions are the domain's rows
      in table order: rows further down the table are shown only when the
      rows above them hold fewer than `top_k` rows of the domain. */
  lemma DomainSuggestTableOrder(a: seq<Row>, b: seq<Row>, d: string, columns: seq<string>, topK: nat)
    requires !Rankable(columns) && topK <= |DomainRows(a, d)|
    ensures DomainSuggest(a + b, d, columns, topK) == DomainSuggest(a, d, columns, topK)
  {
    DomainRowsKeepOrder(a, b, d);
    var front := DomainRows(a, d);
    var all := DomainRows(a + b, d);
    assert all[..topK] == front[..topK];
  }

  /** Top-K optimality of the domain ranking: a row of the domain with both
      values that was left out is never ranked strictly ahead of a
      suggestion. */
  lemma DomainSuggestOptimal(t: seq<Row>, d: string, columns: seq<string>, topK: nat, x: Row, y: Row)
    requires Rankable(columns)
    requires y in DomainSuggest(t, d, columns, topK)
    requires x in t && InDomain(x, d) && HasPowerAndCitations(x)
    requires x !in DomainSuggest(t, d, columns, topK)
    ensures MoreCitedOrLighter(y, x)
  {
    var dom := DomainRows(t, d);
    var ranked := SortBy(DomainKeys, Filter(HasPowerAndCitations, dom));
    var sug := DomainSuggest(t, d, columns, topK);
    assert sug == Head(ranked, topK);
    HeadOfSortedIsOptimal(DomainKeys, ranked, topK);
    assert multiset(t)[x] > 0;
    assert x in multiset(ranked) - multiset(sug);
    DomainOrder(y, x);
  }

  // ---------------------------------------------------------------------
  // The Plot tab: domain filter and axis choices
  // ---------------------------------------------------------------------

  /** `any(d in lst for d in selected) if isinstance(lst, list) else False` */
  predicate SharesDomain(r: Row, selected: seq<string>) {
    r.domains.Some? && exists d :: d in selected && d in r.domains.value
  }

  /** `df[mask]` for the Plot tab: the rows whose domain list shares a domain
      with the selection, in table order. */
  function PlotRows(t: seq<Row>, selected: seq<string>): (rows: seq<Row>)
    ensures multiset(rows) <= multiset(t)
    ensures forall x :: multiset(rows)[x] == if SharesDomain(x, selected) then multiset(t)[x] else 0
  {
    Filter((x: Row) => SharesDomain(x, selected), t)
  }

  /** With the default selection, the whole menu, the Plot tab keeps exactly
      the rows that list at least one domain. */
  lemma PlotDefaultSelection(t: seq<Row>, x: Row)
    requires x in t
    ensures x in PlotRows(t, DomainMenu(t)) <==> DomainsOf(x) != []
  {
    var menu := DomainMenu(t);
    var rows := PlotRows(t, menu);
    assert multiset(t)[x] > 0;
    if DomainsOf(x) != [] {
      var d := DomainsOf(x)[0];
      var i :| 0 <= i < |t| && t[i] == x;
      assert Mentioned(t, d);
      assert SharesDomain(x, menu);
      assert x in multiset(rows);
    } else {
      assert !SharesDomain(x, menu);
      assert x !in multiset(rows);
    }
  }

  const PublicationDate: string := "publication_date"

  /** The X-axis selector's default: `publication_date` when it is among the
      plottable columns, else the first one; nothing when there is none. */
  function DefaultX(columns: seq<string>): (x: Option<string>)
    ensures x.None? <==> columns == []
    ensures x.Some? ==> x.value in columns
    ensures PublicationDate in columns ==> x == Some(PublicationDate)
    ensures PublicationDate !in columns && columns != [] ==> x == Some(columns[0])
  {
    if PublicationDate in columns then Some(PublicationDate)
    else if columns == [] then None
    else Some(columns[0])
  }

  /** `[c for c in numeric_date if c != x_col]`: every plottable column but
      the X axis, in their order. */
  function YChoices(columns: seq<string>, x: Option<string>): (ys: seq<string>)
    ensures multiset(ys) <= multiset(columns)
    ensures forall c :: c in ys <==> c in columns && x != Some(c)
  {
    var ys := Filter((c: string) => x != Some(c), columns);
    assert forall c :: c in ys <==> c in multiset(ys);
    ys
  }
}
