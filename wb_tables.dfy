/**
 * The tables of the World Bank pipelines (src/containers/worldbank-container/worldbank_scraper.py
 * and src/ingest_worldbank.py): the row filter both files build their per-indicator
 * tables with, the outer merge on (country, iso3, year), the sort by year, and the
 * concatenation of per-country tables.
 *
 * A table is a sequence of rows keyed by (country, iso3, year). A row holds its
 * non-null indicator values in a map from column name; a column absent from the
 * map is null (NaN) in that row. Indicator values are carried, never computed on.
 */
module WbTables {
  import opened Wrappers
  import opened Numerals

  /** One row of the indicator API: `country.value`, `countryiso3code`, `date`, `value`. */
  datatype WbRow = WbRow(country: string, iso3: string, date: string, value: Option<real>)

  /** One element of the payload array: the metadata object, `null`, or the row list. */
  datatype Item = Meta | NullItem | Rows(rows: seq<WbRow>)

  datatype Key = Key(country: string, iso3: string, year: int)

  datatype IRow = IRow(key: Key, values: map<string, real>)

  /** The indicator columns and the rows; a table without rows has no columns at all. */
  datatype Table = Table(columns: seq<string>, rows: seq<IRow>)

  /**
   * What the pipelines raise: `int()` on a bad date, iterating something that is not a
   * row list, a failed request, a merge with a table that has no key columns, a missing
   * indicator column, `pd.concat` of no tables.
   */
  datatype WbError = BadDate | BadRows | RequestFailed | MissingKeyColumns | MissingColumn(name: string) | NoFrames

  const EmptyTable: Table := Table([], [])

  /**
   * The indicator codes and the column each one fills, in the order both files declare
   * them (worldbank_scraper.py:14-19 and ingest_worldbank.py:8-13 hold the same dict).
   */
  const Indicators: seq<(string, string)> := [
    ("NY.GDP.MKTP.CD", "gdp_usd"),
    ("SP.POP.TOTL", "population"),
    ("MS.MIL.XPND.GD.ZS", "mil_exp_pct_gdp"),
    ("MS.MIL.XPND.CD", "mil_exp_usd")
  ]

  /** No two indicators fill the same column. */
  predicate NamesDistinct(inds: seq<(string, string)>) {
    forall i, j :: 0 <= i < j < |inds| ==> inds[i].1 != inds[j].1
  }

  /** `df.empty` for the tables built here. */
  predicate IsEmpty(t: Table) {
    t.rows == []
  }

  function KeysOf(rows: seq<IRow>): set<Key> {
    set x | x in rows :: x.key
  }

  // ---------------------------------------------------------------------------
  // The row filter (worldbank_scraper.py:89-97, ingest_worldbank.py:27-35)

  /** The rows whose `value` is not null, in input order. */
  function NonNull(rows: seq<WbRow>): (kept: seq<WbRow>)
    ensures forall x :: x in kept <==> x in rows && x.value.Some?
    ensures |kept| <= |rows|
  {
    if rows == [] then []
    else (if rows[0].value.Some? then [rows[0]] else []) + NonNull(rows[1..])
  }

  lemma {:induction false} NonNullAppend(a: seq<WbRow>, b: seq<WbRow>)
    ensures NonNull(a + b) == NonNull(a) + NonNull(b)
  {
    if a == [] {
      assert a + b == b;
    } else {
      assert (a + b)[0] == a[0];
      assert (a + b)[1..] == a[1..] + b;
      NonNullAppend(a[1..], b);
    }
  }

  /** Table row `y` is API row `x` with its date read as a year and its value under `name`. */
  predicate Converts(x: WbRow, name: string, y: IRow) {
    x.value.Some? && ParseInt(x.date).Some? &&
    y == IRow(Key(x.country, x.iso3, ParseInt(x.date).value), map[name := x.value.value])
  }

  /**
   * The list comprehension: one table row `(country, iso3, int(date), value)` per row
   * with a non-null value, in order. `int(date)` is evaluated only on those rows,
   * and a date it cannot read raises.
   */
  function KeepRows(rows: seq<WbRow>, name: string): (r: Result<seq<IRow>, WbError>)
    ensures r.Failure? ==> r.error == BadDate
  {
    if rows == [] then Success([])
    else
      var x := rows[0];
      var rest := KeepRows(rows[1..], name);
      if x.value.None? then rest
      else match ParseInt(x.date)
        case None => Failure(BadDate)
        case Some(year) =>
          if rest.Failure? then rest
          else Success([IRow(Key(x.country, x.iso3, year), map[name := x.value.value])] + rest.value)
  }

  /** The comprehension succeeds exactly when every non-null row has a readable date. */
  lemma {:induction false} KeepRowsSucceeds(rows: seq<WbRow>, name: string)
    ensures KeepRows(rows, name).Success? <==> forall x :: x in NonNull(rows) ==> ParseInt(x.date).Some?
  {
    if rows != [] {
      KeepRowsSucceeds(rows[1..], name);
      assert NonNull(rows) == (if rows[0].value.Some? then [rows[0]] else []) + NonNull(rows[1..]);
    }
  }

  /** It then converts the non-null rows one for one, in order. */
  lemma {:induction false} KeepRowsConverts(rows: seq<WbRow>, name: string)
    requires KeepRows(rows, name).Success?
    ensures |KeepRows(rows, name).value| == |NonNull(rows)|
    ensures forall i :: 0 <= i < |NonNull(rows)| ==> Converts(NonNull(rows)[i], name, KeepRows(rows, name).value[i])
  {
    if rows != [] {
      var x := rows[0];
      var tail := KeepRows(rows[1..], name);
      assert tail.Success?;
      KeepRowsConverts(rows[1..], name);
      var nn := NonNull(rows);
      assert nn == (if x.value.Some? then [x] else []) + NonNull(rows[1..]);
      if x.value.Some? {
        var kept := KeepRows(rows, name).value;
        assert kept == [kept[0]] + tail.value;
        forall i | 0 <= i < |nn| ensures Converts(nn[i], name, kept[i]) {
          if i > 0 {
            assert kept[i] == tail.value[i - 1];
            assert nn[i] == NonNull(rows[1..])[i - 1];
          }
        }
      }
    }
  }

  /** `pd.DataFrame(rows)`: the column `name` when there are rows, no columns when there are none. */
  function TableOf(kept: seq<IRow>, name: string): (t: Table)
    ensures IsEmpty(t) <==> kept == []
    ensures t.rows == kept
    ensures kept != [] ==> t.columns == [name]
    ensures kept == [] ==> t.columns == []
  {
    if kept == [] then EmptyTable else Table([name], kept)
  }

  // ---------------------------------------------------------------------------
  // Well-formed tables

  /** Every value a row holds belongs to one of the table's columns. */
  predicate WellFormed(t: Table) {
    forall x, c :: x in t.rows && c in x.values ==> c in t.columns
  }

  predicate DisjointColumns(a: seq<string>, b: seq<string>) {
    forall c :: c in a ==> c !in b
  }

  lemma KeepRowsWellFormed(rows: seq<WbRow>, name: string)
    requires KeepRows(rows, name).Success?
    ensures WellFormed(TableOf(KeepRows(rows, name).value, name))
  {
    var kept := KeepRows(rows, name).value;
    KeepRowsConverts(rows, name);
    forall x, c | x in kept && c in x.values ensures c == name {
      var i :| 0 <= i < |kept| && kept[i] == x;
    }
  }

  // ---------------------------------------------------------------------------
  // The outer merge `pd.merge(left, right, on=["country", "iso3", "year"], how="outer")`

  /** The rows of `rows` with key `k`, in order. */
  function Matches(rows: seq<IRow>, k: Key): (m: seq<IRow>)
    ensures forall y :: y in m <==> y in rows && y.key == k
  {
    if rows == [] then []
    else (if rows[0].key == k then [rows[0]] else []) + Matches(rows[1..], k)
  }

  /** The rows of `rows` whose key is not in `keys`, in order. */
  function Unmatched(rows: seq<IRow>, keys: set<Key>): (u: seq<IRow>)
    ensures forall y :: y in u <==> y in rows && y.key !in keys
  {
    if rows == [] then []
    else (if rows[0].key !in keys then [rows[0]] else []) + Unmatched(rows[1..], keys)
  }

  /** Row `a` joined with each of its matches, or `a` alone (right columns null) if it has none. */
  function JoinRow(a: IRow, ms: seq<IRow>): (out: seq<IRow>)
    ensures ms == [] ==> out == [a]
    ensures ms != [] ==> |out| == |ms| && forall i :: 0 <= i < |ms| ==> out[i] == IRow(a.key, a.values + ms[i].values)
    ensures forall z :: z in out ==> z.key == a.key
    ensures forall z :: z in out ==> z == a || exists m :: m in ms && z == IRow(a.key, a.values + m.values)
  {
    if ms == [] then [a]
    else seq(|ms|, i requires 0 <= i < |ms| => IRow(a.key, a.values + ms[i].values))
  }

  function JoinLeft(ls: seq<IRow>, right: seq<IRow>): seq<IRow> {
    if ls == [] then [] else JoinRow(ls[0], Matches(right, ls[0].key)) + JoinLeft(ls[1..], right)
  }

  function OuterJoin(l: Table, r: Table): (j: Table)
    ensures j.columns == l.columns + r.columns
  {
    Table(l.columns + r.columns, JoinLeft(l.rows, r.rows) + Unmatched(r.rows, KeysOf(l.rows)))
  }

  lemma {:induction false} JoinLeftHas(ls: seq<IRow>, right: seq<IRow>, a: IRow, z: IRow)
    requires a in ls && z in JoinRow(a, Matches(right, a.key))
    ensures z in JoinLeft(ls, right)
  {
    if ls[0] != a {
      JoinLeftHas(ls[1..], right, a, z);
    }
  }

  lemma {:induction false} JoinLeftOrigin(ls: seq<IRow>, right: seq<IRow>, z: IRow) returns (a: IRow)
    requires z in JoinLeft(ls, right)
    ensures a in ls && z in JoinRow(a, Matches(right, a.key))
  {
    if z in JoinRow(ls[0], Matches(right, ls[0].key)) {
      a := ls[0];
    } else {
      a := JoinLeftOrigin(ls[1..], right, z);
    }
  }

  /** Every key of either side appears in the merge, and no other key does. */
  lemma JoinKeys(l: Table, r: Table)
    ensures KeysOf(OuterJoin(l, r).rows) == KeysOf(l.rows) + KeysOf(r.rows)
  {
    var j := OuterJoin(l, r);
    var lk := KeysOf(l.rows);
    forall k | k in KeysOf(j.rows) ensures k in lk + KeysOf(r.rows) {
      var z :| z in j.rows && z.key == k;
      if z in JoinLeft(l.rows, r.rows) {
        var a := JoinLeftOrigin(l.rows, r.rows, z);
      }
    }
    forall k | k in lk + KeysOf(r.rows) ensures k in KeysOf(j.rows) {
      if k in lk {
        var a :| a in l.rows && a.key == k;
        var ms := Matches(r.rows, k);
        var z := if ms == [] then a else IRow(a.key, a.values + ms[0].values);
        assert JoinRow(a, ms)[0] == z;
        JoinLeftHas(l.rows, r.rows, a, z);
        assert z in j.rows;
      } else {
        var y :| y in r.rows && y.key == k;
        assert y in j.rows;
      }
    }
  }

  /** Each value of table `t` in a column of `src` is a value `src` has for the same key. */
  predicate ValuesFrom(t: Table, src: Table) {
    forall x, c :: x in t.rows && c in x.values && c in src.columns ==>
      exists y :: y in src.rows && y.key == x.key && c in y.values && y.values[c] == x.values[c]
  }

  /** Each value of `src` appears in `t` for the same key and column. */
  predicate ValuesKept(t: Table, src: Table) {
    forall y, c :: y in src.rows && c in y.values ==>
      exists x :: x in t.rows && x.key == y.key && c in x.values && x.values[c] == y.values[c]
  }

  lemma JoinWellFormed(l: Table, r: Table)
    requires WellFormed(l) && WellFormed(r)
    ensures WellFormed(OuterJoin(l, r))
  {
    var j := OuterJoin(l, r);
    forall z, c | z in j.rows && c in z.values ensures c in j.columns {
      if z in JoinLeft(l.rows, r.rows) {
        var a := JoinLeftOrigin(l.rows, r.rows, z);
      }
    }
  }

  /** The right table's columns are filled only from the right table. */
  lemma JoinValuesFromRight(l: Table, r: Table)
    requires WellFormed(l) && DisjointColumns(l.columns, r.columns)
    ensures ValuesFrom(OuterJoin(l, r), r)
  {
    var j := OuterJoin(l, r);
    forall z, c | z in j.rows && c in z.values && c in r.columns
      ensures exists y :: y in r.rows && y.key == z.key && c in y.values && y.values[c] == z.values[c]
    {
      if z in JoinLeft(l.rows, r.rows) {
        var a := JoinLeftOrigin(l.rows, r.rows, z);
        assert c !in a.values;
        var m :| m in Matches(r.rows, a.key) && z == IRow(a.key, a.values + m.values);
        assert m.key == z.key;
      } else {
        assert z in r.rows;
      }
    }
  }

  /** A column of an earlier table keeps coming only from that table. */
  lemma JoinValuesFromLeft(l: Table, r: Table, src: Table)
    requires WellFormed(r) && ValuesFrom(l, src) && DisjointColumns(src.columns, r.columns)
    ensures ValuesFrom(OuterJoin(l, r), src)
  {
    var j := OuterJoin(l, r);
    forall z, c | z in j.rows && c in z.values && c in src.columns
      ensures exists y :: y in src.rows && y.key == z.key && c in y.values && y.values[c] == z.values[c]
    {
      assert c !in r.columns;
      assert z in JoinLeft(l.rows, r.rows);
      var a := JoinLeftOrigin(l.rows, r.rows, z);
      if z != a {
        var m :| m in Matches(r.rows, a.key) && z == IRow(a.key, a.values + m.values);
        assert c !in m.values;
        assert c in a.values && z.values[c] == a.values[c];
      }
    }
  }

  /** Every value of the right table survives the merge. */
  lemma JoinKeepsRight(l: Table, r: Table)
    ensures ValuesKept(OuterJoin(l, r), r)
  {
    var j := OuterJoin(l, r);
    forall y, c | y in r.rows && c in y.values
      ensures exists x :: x in j.rows && x.key == y.key && c in x.values && x.values[c] == y.values[c]
    {
      if y.key in KeysOf(l.rows) {
        var a :| a in l.rows && a.key == y.key;
        var ms := Matches(r.rows, a.key);
        assert y in ms;
        var i :| 0 <= i < |ms| && ms[i] == y;
        var z := IRow(a.key, a.values + y.values);
        assert JoinRow(a, ms)[i] == z;
        JoinLeftHas(l.rows, r.rows, a, z);
        assert z in j.rows;
      } else {
        assert y in j.rows;
      }
    }
  }

  /** Every value an earlier table contributed survives the merge. */
  lemma JoinKeepsLeft(l: Table, r: Table, src: Table)
    requires WellFormed(r) && WellFormed(src) && ValuesKept(l, src) && DisjointColumns(src.columns, r.columns)
    ensures ValuesKept(OuterJoin(l, r), src)
  {
    var j := OuterJoin(l, r);
    forall y, c | y in src.rows && c in y.values
      ensures exists x :: x in j.rows && x.key == y.key && c in x.values && x.values[c] == y.values[c]
    {
      var a :| a in l.rows && a.key == y.key && c in a.values && a.values[c] == y.values[c];
      var ms := Matches(r.rows, a.key);
      var z := if ms == [] then a else IRow(a.key, a.values + ms[0].values);
      assert JoinRow(a, ms)[0] == z;
      assert c !in r.columns;
      assert ms != [] ==> c !in ms[0].values;
      JoinLeftHas(l.rows, r.rows, a, z);
      assert z in j.rows;
    }
  }

  // ---------------------------------------------------------------------------
  // Merging a list of indicator tables, left to right

  function AllColumns(dfs: seq<Table>): seq<string> {
    if dfs == [] then [] else AllColumns(dfs[..|dfs| - 1]) + dfs[|dfs| - 1].columns
  }

  function UnionKeys(dfs: seq<Table>): set<Key> {
    if dfs == [] then {} else UnionKeys(dfs[..|dfs| - 1]) + KeysOf(dfs[|dfs| - 1].rows)
  }

  lemma {:induction false} UnionKeysMembers(dfs: seq<Table>)
    ensures forall key :: key in UnionKeys(dfs) <==> exists i :: 0 <= i < |dfs| && key in KeysOf(dfs[i].rows)
  {
    if dfs != [] {
      var p := dfs[..|dfs| - 1];
      UnionKeysMembers(p);
      assert forall i :: 0 <= i < |p| ==> p[i] == dfs[i];
    }
  }

  /** Well-formed tables whose indicator columns are pairwise distinct. */
  predicate Mergeable(dfs: seq<Table>) {
    (forall i :: 0 <= i < |dfs| ==> WellFormed(dfs[i])) &&
    (forall i, j, c :: 0 <= i < j < |dfs| && c in dfs[i].columns ==> c !in dfs[j].columns)
  }

  /** `merged = dfs[0]` then `merged = pd.merge(merged, df, ..., how="outer")` for each later table. */
  function FoldJoin(dfs: seq<Table>): (t: Table)
    requires dfs != []
    ensures t.columns == AllColumns(dfs)
  {
    if |dfs| == 1 then
      assert dfs[..0] == [];
      dfs[0]
    else OuterJoin(FoldJoin(dfs[..|dfs| - 1]), dfs[|dfs| - 1])
  }

  lemma {:induction false} AllColumnsFrom(dfs: seq<Table>, c: string) returns (i: nat)
    requires c in AllColumns(dfs)
    ensures i < |dfs| && c in dfs[i].columns
  {
    var p := dfs[..|dfs| - 1];
    if c in AllColumns(p) {
      i := AllColumnsFrom(p, c);
      assert p[i] == dfs[i];
    } else {
      i := |dfs| - 1;
    }
  }

  lemma ValuesOfItself(t: Table)
    ensures ValuesFrom(t, t) && ValuesKept(t, t)
  {
    forall x, c | x in t.rows && c in x.values
      ensures exists y :: y in t.rows && y.key == x.key && c in y.values && y.values[c] == x.values[c]
    {
      assert x in t.rows;
    }
  }

  /** The tables' own columns, and so their concatenation, miss the last table's columns. */
  lemma ColumnsDisjointFromLast(dfs: seq<Table>)
    requires |dfs| > 1 && Mergeable(dfs)
    ensures DisjointColumns(AllColumns(dfs[..|dfs| - 1]), dfs[|dfs| - 1].columns)
    ensures forall i :: 0 <= i < |dfs| - 1 ==> DisjointColumns(dfs[i].columns, dfs[|dfs| - 1].columns)
  {
    var p := dfs[..|dfs| - 1];
    forall c | c in AllColumns(p) ensures c !in dfs[|dfs| - 1].columns {
      var i := AllColumnsFrom(p, c);
      assert p[i] == dfs[i];
    }
  }

  /** Values drawn from and kept by `t` for each table of `dfs`, given the last table and the others. */
  lemma ValuesOfEach(t: Table, dfs: seq<Table>, p: seq<Table>)
    requires dfs != [] && p == dfs[..|dfs| - 1]
    requires forall i :: 0 <= i < |p| ==> ValuesFrom(t, p[i]) && ValuesKept(t, p[i])
    requires ValuesFrom(t, dfs[|dfs| - 1]) && ValuesKept(t, dfs[|dfs| - 1])
    ensures forall i :: 0 <= i < |dfs| ==> ValuesFrom(t, dfs[i]) && ValuesKept(t, dfs[i])
  {
    forall i | 0 <= i < |dfs| ensures ValuesFrom(t, dfs[i]) && ValuesKept(t, dfs[i]) {
      if i < |p| {
        assert p[i] == dfs[i];
      }
    }
  }

  /** Merging one more table keeps the values of the tables already merged. */
  lemma JoinKeepsEarlier(l: Table, r: Table, p: seq<Table>)
    requires WellFormed(r)
    requires forall i :: 0 <= i < |p| ==>
      WellFormed(p[i]) && ValuesFrom(l, p[i]) && ValuesKept(l, p[i]) && DisjointColumns(p[i].columns, r.columns)
    ensures forall i :: 0 <= i < |p| ==> ValuesFrom(OuterJoin(l, r), p[i]) && ValuesKept(OuterJoin(l, r), p[i])
  {
    forall i | 0 <= i < |p| ensures ValuesFrom(OuterJoin(l, r), p[i]) && ValuesKept(OuterJoin(l, r), p[i]) {
      JoinValuesFromLeft(l, r, p[i]);
      JoinKeepsLeft(l, r, p[i]);
    }
  }

  /**
   * The outer merge of distinct indicator tables holds exactly the union of their keys,
   * and for each table and each of its columns, a row of the merge has a value there
   * only if that table has the same value for the row's key, and every value of the
   * table is in the merge.
   */
  lemma {:induction false} FoldJoinMerges(dfs: seq<Table>)
    requires dfs != [] && Mergeable(dfs)
    ensures WellFormed(FoldJoin(dfs))
    ensures KeysOf(FoldJoin(dfs).rows) == UnionKeys(dfs)
    ensures forall i :: 0 <= i < |dfs| ==> ValuesFrom(FoldJoin(dfs), dfs[i]) && ValuesKept(FoldJoin(dfs), dfs[i])
  {
    var n := |dfs|;
    if n == 1 {
      assert dfs[..0] == [];
      ValuesOfItself(dfs[0]);
      forall i | 0 <= i < |dfs| ensures ValuesFrom(FoldJoin(dfs), dfs[i]) && ValuesKept(FoldJoin(dfs), dfs[i]) {
        assert i == 0 && FoldJoin(dfs) == dfs[0];
      }
    } else {
      var p := dfs[..n - 1];
      var r := dfs[n - 1];
      assert forall i :: 0 <= i < n - 1 ==> p[i] == dfs[i];
      assert Mergeable(p);
      FoldJoinMerges(p);
      var l := FoldJoin(p);
      assert FoldJoin(dfs) == OuterJoin(l, r);
      ColumnsDisjointFromLast(dfs);
      JoinWellFormed(l, r);
      JoinKeys(l, r);
      JoinValuesFromRight(l, r);
      JoinKeepsRight(l, r);
      JoinKeepsEarlier(l, r, p);
      ValuesOfEach(OuterJoin(l, r), dfs, p);
    }
  }

  // ---------------------------------------------------------------------------
  // `sort_values("year")`

  predicate SortedByYear(rows: seq<IRow>) {
    forall i, j :: 0 <= i < j < |rows| ==> rows[i].key.year <= rows[j].key.year
  }

  /** Places `x` after every row whose year is not greater than its own. */
  function InsertByYear(x: IRow, s: seq<IRow>): (r: seq<IRow>)
    ensures multiset(r) == multiset(s) + multiset{x}
  {
    if s == [] then [x]
    else if x.key.year < s[0].key.year then [x] + s
    else
      assert s == [s[0]] + s[1..];
      [s[0]] + InsertByYear(x, s[1..])
  }

  lemma {:induction false} InsertKeepsSorted(x: IRow, s: seq<IRow>)
    requires SortedByYear(s)
    ensures SortedByYear(InsertByYear(x, s))
  {
    if s != [] && x.key.year >= s[0].key.year {
      InsertKeepsSorted(x, s[1..]);
      var rest := InsertByYear(x, s[1..]);
      forall j | 0 <= j < |rest| ensures s[0].key.year <= rest[j].key.year {
        assert rest[j] in multiset(s[1..]) + multiset{x};
        if rest[j] != x {
          assert rest[j] in s[1..];
        }
      }
    }
  }

  function SortByYear(rows: seq<IRow>): (r: seq<IRow>)
    ensures SortedByYear(r) && multiset(r) == multiset(rows)
    ensures forall x :: x in r <==> x in rows
  {
    if rows == [] then []
    else
      var n := |rows|;
      assert rows == rows[..n - 1] + [rows[n - 1]];
      var sorted := SortByYear(rows[..n - 1]);
      InsertKeepsSorted(rows[n - 1], sorted);
      var r := InsertByYear(rows[n - 1], sorted);
      assert forall x :: x in r <==> x in multiset(rows);
      r
  }

  /** The same table with its rows ordered by year. */
  function SortTable(t: Table): (s: Table)
    ensures s.columns == t.columns && SortedByYear(s.rows) && multiset(s.rows) == multiset(t.rows)
  {
    Table(t.columns, SortByYear(t.rows))
  }

  /** Sorting changes no key, no column and no value. */
  lemma SortKeepsContents(t: Table, src: Table)
    ensures KeysOf(SortTable(t).rows) == KeysOf(t.rows)
    ensures WellFormed(t) ==> WellFormed(SortTable(t))
    ensures ValuesFrom(t, src) ==> ValuesFrom(SortTable(t), src)
    ensures ValuesKept(t, src) ==> ValuesKept(SortTable(t), src)
  {
    var s := SortTable(t);
    if ValuesKept(t, src) {
      forall y, c | y in src.rows && c in y.values
        ensures exists x :: x in s.rows && x.key == y.key && c in x.values && x.values[c] == y.values[c]
      {
        var x :| x in t.rows && x.key == y.key && c in x.values && x.values[c] == y.values[c];
        assert x in s.rows;
      }
    }
  }

  /** `merge_indicators`: nothing for no tables, otherwise the outer merge sorted by year. */
  function Merged(dfs: seq<Table>): Table {
    if dfs == [] then EmptyTable else SortTable(FoldJoin(dfs))
  }

  /**
   * The merged table is sorted by year, has a row for exactly the keys some table has,
   * and in each table's columns holds exactly that table's values for those keys.
   */
  lemma MergedContents(dfs: seq<Table>)
    requires dfs != [] && Mergeable(dfs)
    ensures SortedByYear(Merged(dfs).rows) && WellFormed(Merged(dfs))
    ensures KeysOf(Merged(dfs).rows) == UnionKeys(dfs)
    ensures forall i :: 0 <= i < |dfs| ==> ValuesFrom(Merged(dfs), dfs[i]) && ValuesKept(Merged(dfs), dfs[i])
  {
    FoldJoinMerges(dfs);
    var f := FoldJoin(dfs);
    forall i | 0 <= i < |dfs| ensures ValuesFrom(Merged(dfs), dfs[i]) && ValuesKept(Merged(dfs), dfs[i]) {
      SortKeepsContents(f, dfs[i]);
    }
    SortKeepsContents(f, f);
  }

  /** A key missing from one indicator's table leaves that indicator null in the merged row. */
  lemma MissingIndicatorIsNull(dfs: seq<Table>, i: nat, x: IRow, c: string)
    requires dfs != [] && Mergeable(dfs) && i < |dfs|
    requires x in Merged(dfs).rows && c in dfs[i].columns && x.key !in KeysOf(dfs[i].rows)
    ensures c !in x.values
  {
    MergedContents(dfs);
  }

  // ---------------------------------------------------------------------------
  // `pd.concat(frames, ignore_index=True)`

  /** The columns of `a`, then those of `b` not already present, in order. */
  function UnionColumns(a: seq<string>, b: seq<string>): (u: seq<string>)
    ensures forall c :: c in u <==> c in a || c in b
    ensures |a| <= |u| && u[..|a|] == a
    decreases |b|
  {
    if b == [] then a
    else
      var a' := if b[0] in a then a else a + [b[0]];
      var u := UnionColumns(a', b[1..]);
      assert a'[..|a|] == a;
      assert u[..|a|] == u[..|a'|][..|a|];
      u
  }

  function Concat(frames: seq<Table>): Table {
    if frames == [] then EmptyTable
    else
      var p := Concat(frames[..|frames| - 1]);
      var last := frames[|frames| - 1];
      Table(UnionColumns(p.columns, last.columns), p.rows + last.rows)
  }

  function TotalRows(frames: seq<Table>): nat {
    if frames == [] then 0 else TotalRows(frames[..|frames| - 1]) + |frames[|frames| - 1].rows|
  }

  lemma KeysOfAppend(a: seq<IRow>, b: seq<IRow>)
    ensures KeysOf(a + b) == KeysOf(a) + KeysOf(b)
  {
    assert forall x :: x in a + b <==> x in a || x in b;
  }

  /** The rows of all the frames together, each counted as often as it occurs. */
  function AllRows(frames: seq<Table>): multiset<IRow> {
    if frames == [] then multiset{} else AllRows(frames[..|frames| - 1]) + multiset(frames[|frames| - 1].rows)
  }

  lemma {:induction false} AllRowsCons(t: Table, rest: seq<Table>)
    ensures AllRows([t] + rest) == multiset(t.rows) + AllRows(rest)
  {
    if rest == [] {
      assert [t] + rest == [t];
      assert [t][..0] == [];
    } else {
      var n := |rest|;
      assert ([t] + rest)[..n] == [t] + rest[..n - 1];
      AllRowsCons(t, rest[..n - 1]);
    }
  }

  /**
   * The rows of a concatenation: those of every frame, each as often as the frames
   * together hold it, and no others.
   */
  lemma {:induction false} ConcatRows(frames: seq<Table>)
    ensures multiset(Concat(frames).rows) == AllRows(frames)
    ensures forall x :: x in Concat(frames).rows <==> exists i :: 0 <= i < |frames| && x in frames[i].rows
    ensures |Concat(frames).rows| == TotalRows(frames)
    ensures KeysOf(Concat(frames).rows) == UnionKeys(frames)
  {
    if frames != [] {
      var n := |frames|;
      var p := frames[..n - 1];
      assert forall i :: 0 <= i < n - 1 ==> p[i] == frames[i];
      ConcatRows(p);
      var t := Concat(frames);
      KeysOfAppend(Concat(p).rows, frames[n - 1].rows);
      forall x | x in t.rows ensures exists i :: 0 <= i < n && x in frames[i].rows {
        if x !in frames[n - 1].rows {
          var i :| 0 <= i < n - 1 && x in p[i].rows;
        }
      }
      forall x, i | 0 <= i < n && x in frames[i].rows ensures x in t.rows {
        if i < n - 1 {
          assert x in p[i].rows;
        }
      }
    }
  }

  /** The columns of a concatenation: those of every frame; well-formed frames give a well-formed result. */
  lemma {:induction false} ConcatColumns(frames: seq<Table>)
    ensures forall i, c :: 0 <= i < |frames| && c in frames[i].columns ==> c in Concat(frames).columns
    ensures (forall i :: 0 <= i < |frames| ==> WellFormed(frames[i])) ==> WellFormed(Concat(frames))
  {
    if frames != [] {
      var n := |frames|;
      var p := frames[..n - 1];
      assert forall i :: 0 <= i < n - 1 ==> p[i] == frames[i];
      ConcatColumns(p);
      var t := Concat(frames);
      forall i, c | 0 <= i < n && c in frames[i].columns ensures c in t.columns {
        if i < n - 1 {
          assert c in p[i].columns;
        }
      }
    }
  }

  /**
   * The concatenation holds every row of every frame, as often as the frames together
   * hold it, and nothing else, and each frame's columns.
   */
  lemma ConcatContents(frames: seq<Table>)
    ensures multiset(Concat(frames).rows) == AllRows(frames)
    ensures forall x :: x in Concat(frames).rows <==> exists i :: 0 <= i < |frames| && x in frames[i].rows
    ensures |Concat(frames).rows| == TotalRows(frames)
    ensures KeysOf(Concat(frames).rows) == UnionKeys(frames)
    ensures forall i, c :: 0 <= i < |frames| && c in frames[i].columns ==> c in Concat(frames).columns
    ensures (forall i :: 0 <= i < |frames| ==> WellFormed(frames[i])) ==> WellFormed(Concat(frames))
  {
    ConcatRows(frames);
    ConcatColumns(frames);
  }
}
